/** `1_binary_landscapes.py`: paintings become nodes of a graph whose edges
    join the two carriers of a tag that exactly two paintings carry; a
    depth-first walk from each painting not yet visited emits one-painting
    frames. */
module BinaryLandscapes {
  import opened Wrappers
  import opened Scoring

  /** Adjacency sets keyed by painting index. */
  type Graph = map<nat, set<nat>>

  predicate Increasing(s: seq<nat>)
  {
    forall a, b :: 0 <= a < b < |s| ==> s[a] < s[b]
  }

  /** The rows among `rows` that carry tag `t`. */
  function Carriers(rows: seq<Tags>, t: string): (r: set<nat>)
    ensures forall i :: i in r <==> 0 <= i < |rows| && t in rows[i]
  {
    set i | 0 <= i < |rows| && t in rows[i]
  }

  /** The values of a list. */
  function Elems(l: seq<nat>): set<nat>
  {
    set x | x in l
  }

  /** The rows before `n` that carry `t`, in increasing order. */
  function CarrierList(rows: seq<Tags>, t: string, n: nat): (l: seq<nat>)
    requires n <= |rows|
    ensures Increasing(l)
    ensures forall k :: 0 <= k < |l| ==> l[k] < n && t in rows[l[k]]
    ensures forall i :: 0 <= i < n && t in rows[i] ==> i in l
  {
    if n == 0 then []
    else CarrierList(rows, t, n - 1) + (if t in rows[n - 1] then [n - 1] else [])
  }

  /** Adding row `i` to the map: each of its tags gets `i` appended, a tag
      seen for the first time gets a list of its own. */
  function AddRow(prev: map<string, seq<nat>>, row: Tags, i: nat): (m: map<string, seq<nat>>)
    ensures m.Keys == prev.Keys + row
    ensures forall t :: t in m && t !in row ==> m[t] == prev[t]
    ensures forall t :: t in m && t in row ==> m[t] == (if t in prev then prev[t] else []) + [i]
  {
    map t | t in prev.Keys + row :: (if t in prev then prev[t] else []) + (if t in row then [i] else [])
  }

  /** The tag-to-paintings map over the first `n` rows: its keys are the
      tags some of those rows carry, and each lists its carriers in row
      order. */
  function TagMap(rows: seq<Tags>, n: nat): (m: map<string, seq<nat>>)
    requires n <= |rows|
    ensures forall t :: t in m <==> |CarrierList(rows, t, n)| > 0
    ensures forall t :: t in m ==> m[t] == CarrierList(rows, t, n)
  {
    if n == 0 then map[]
    else AddRow(TagMap(rows, n - 1), rows[n - 1], n - 1)
  }

  /** An increasing list has as many values as elements. */
  lemma {:induction false} IncreasingCard(s: seq<nat>)
    requires Increasing(s)
    ensures |Elems(s)| == |s|
  {
    if |s| > 0 {
      var last := s[|s| - 1];
      var init := s[..|s| - 1];
      IncreasingCard(init);
      assert s == init + [last];
      assert Elems(s) == Elems(init) + {last};
      assert last !in Elems(init) by {
        forall x | x in init ensures x < last {
          var k :| 0 <= k < |init| && init[k] == x;
          assert s[k] < s[|s| - 1];
        }
      }
    }
  }

  /** A tag is a key of the map iff some painting carries it, and its list
      holds exactly the carriers, each once. */
  lemma TagListIsCarriers(rows: seq<Tags>, t: string)
    ensures var m := TagMap(rows, |rows|);
      && (t in m <==> Carriers(rows, t) != {})
      && (t in m ==> Elems(m[t]) == Carriers(rows, t) && |m[t]| == |Carriers(rows, t)| && Increasing(m[t]))
  {
    var l := CarrierList(rows, t, |rows|);
    assert Elems(l) == Carriers(rows, t);
    IncreasingCard(l);
    if |l| > 0 {
      assert l[0] in Carriers(rows, t);
    }
  }

  /** A tag carried by exactly two paintings, `p` and `q` (in either order). */
  predicate PairTag(m: map<string, seq<nat>>, t: string, p: nat, q: nat)
  {
    t in m && |m[t]| == 2 && ((m[t][0] == p && m[t][1] == q) || (m[t][0] == q && m[t][1] == p))
  }

  /** The paintings listed under some tag of exactly two carriers. */
  function Ends(m: map<string, seq<nat>>): set<nat>
  {
    set t, k | t in m && |m[t]| == 2 && 0 <= k < 2 :: m[t][k]
  }

  /** The partners of `p` over the tags of exactly two carriers. */
  function Partners(m: map<string, seq<nat>>, p: nat): set<nat>
  {
    set t | t in m && |m[t]| == 2 && p in m[t] :: if m[t][0] == p then m[t][1] else m[t][0]
  }

  /** `construct_graph`: a painting is a key iff it carries a tag of exactly
      two carriers, and `q` is adjacent to `p` iff such a tag is carried by
      `p` and `q`. */
  function ConstructGraph(m: map<string, seq<nat>>): (g: Graph)
    ensures forall p :: p in g <==> exists t :: t in m && |m[t]| == 2 && p in m[t]
    ensures forall p, q :: p in g ==> (q in g[p] <==> exists t :: PairTag(m, t, p, q))
  {
    var g := map p | p in Ends(m) :: Partners(m, p);
    assert forall p :: p in g <== exists t :: t in m && |m[t]| == 2 && p in m[t] by {
      forall p, t | t in m && |m[t]| == 2 && p in m[t] ensures p in Ends(m) {
        var k :| 0 <= k < 2 && m[t][k] == p;
      }
    }
    assert forall p, q :: p in g ==> (q in g[p] <== exists t :: PairTag(m, t, p, q)) by {
      forall p, q, t | p in g && PairTag(m, t, p, q) ensures q in Partners(m, p) {
        assert p in m[t];
      }
    }
    assert forall p, q :: p in g ==> (q in g[p] ==> exists t :: PairTag(m, t, p, q)) by {
      forall p, q | p in g && q in g[p] ensures exists t :: PairTag(m, t, p, q) {
        var t :| t in m && |m[t]| == 2 && p in m[t] && q == (if m[t][0] == p then m[t][1] else m[t][0]);
        assert PairTag(m, t, p, q);
      }
    }
    g
  }

  /** Every neighbour is itself a key, and adjacency runs both ways. */
  predicate Symmetric(g: Graph)
  {
    forall p, q :: p in g && q in g[p] ==> q in g && p in g[q]
  }

  lemma GraphSymmetric(m: map<string, seq<nat>>)
    ensures Symmetric(ConstructGraph(m))
  {
    var g := ConstructGraph(m);
    forall p, q | p in g && q in g[p] ensures q in g && p in g[q] {
      var t :| PairTag(m, t, p, q);
      assert PairTag(m, t, q, p);
      assert q in m[t];
    }
  }

  /** With increasing tag lists, no painting is its own neighbour. */
  lemma GraphNoSelfLoops(m: map<string, seq<nat>>)
    requires forall t :: t in m ==> Increasing(m[t])
    ensures forall p :: p in ConstructGraph(m) ==> p !in ConstructGraph(m)[p]
  {
  }

  /** An increasing list holding `p` and `q` has them as its values. */
  lemma PairValues(l: seq<nat>, p: nat, q: nat, values: set<nat>)
    requires Increasing(l) && Elems(l) == values
    requires |l| == 2 && ((l[0] == p && l[1] == q) || (l[0] == q && l[1] == p))
    ensures p != q && values == {p, q}
  {
    assert Elems(l) == {l[0], l[1]};
  }

  /** An increasing list whose values are two distinct paintings lists
      exactly those two. */
  lemma ListOfPair(l: seq<nat>, p: nat, q: nat)
    requires Increasing(l) && Elems(l) == {p, q} && p != q
    ensures |l| == 2 && ((l[0] == p && l[1] == q) || (l[0] == q && l[1] == p))
  {
    IncreasingCard(l);
    assert l[0] in Elems(l) && l[1] in Elems(l);
  }

  /** An edge of the graph of a painting collection joins two distinct
      paintings that are the only carriers of some tag. */
  lemma EdgeIsSharedPair(rows: seq<Tags>, p: nat, q: nat)
    requires var g := ConstructGraph(TagMap(rows, |rows|)); p in g && q in g[p]
    ensures p != q && exists t :: Carriers(rows, t) == {p, q}
  {
    var m := TagMap(rows, |rows|);
    var t := EdgeTag(m, p, q);
    EdgeCarriers(rows, t, p, q);
  }

  /** The carriers of an edge's tag are its two ends. */
  lemma EdgeCarriers(rows: seq<Tags>, t: string, p: nat, q: nat)
    requires PairTag(TagMap(rows, |rows|), t, p, q)
    ensures p != q && Carriers(rows, t) == {p, q}
  {
    TagListIsCarriers(rows, t);
    PairValues(TagMap(rows, |rows|)[t], p, q, Carriers(rows, t));
  }

  /** The tag behind an edge. */
  lemma EdgeTag(m: map<string, seq<nat>>, p: nat, q: nat) returns (t: string)
    requires var g := ConstructGraph(m); p in g && q in g[p]
    ensures PairTag(m, t, p, q)
  {
    t :| PairTag(m, t, p, q);
  }

  /** Two distinct paintings that are the only carriers of a tag are both
      keys and adjacent. */
  lemma SharedPairIsEdge(rows: seq<Tags>, p: nat, q: nat, t: string)
    requires p != q && Carriers(rows, t) == {p, q}
    ensures var g := ConstructGraph(TagMap(rows, |rows|)); p in g && q in g[p]
  {
    var m := TagMap(rows, |rows|);
    TagListIsCarriers(rows, t);
    ListOfPair(m[t], p, q);
    assert PairTag(m, t, p, q);
  }

  /** The graph of a painting collection: `p` and `q` are adjacent iff they
      are distinct and some tag is carried by them and by no other painting. */
  lemma EdgeIffSharedPair(rows: seq<Tags>, p: nat, q: nat)
    ensures var g := ConstructGraph(TagMap(rows, |rows|));
      p in g && q in g[p] <==> p != q && exists t :: Carriers(rows, t) == {p, q}
  {
    var g := ConstructGraph(TagMap(rows, |rows|));
    if p in g && q in g[p] {
      EdgeIsSharedPair(rows, p, q);
    }
    if p != q && exists t :: Carriers(rows, t) == {p, q} {
      var t :| Carriers(rows, t) == {p, q};
      SharedPairIsEdge(rows, p, q, t);
    }
  }

  /** A walk along edges, every step leaving a key. */
  ghost predicate Path(g: Graph, path: seq<nat>)
  {
    |path| > 0 && forall i :: 0 <= i < |path| - 1 ==> path[i] in g && path[i + 1] in g[path[i]]
  }

  ghost predicate Reachable(g: Graph, a: nat, b: nat)
  {
    exists path :: Path(g, path) && path[0] == a && path[|path| - 1] == b
  }

  lemma PathSnoc(g: Graph, path: seq<nat>, y: nat)
    requires Path(g, path) && path[|path| - 1] in g && y in g[path[|path| - 1]]
    ensures Path(g, path + [y]) && (path + [y])[0] == path[0]
  {
  }

  /** Every frame holds one painting. */
  predicate Singletons(s: seq<seq<nat>>)
  {
    forall i :: 0 <= i < |s| ==> |s[i]| == 1
  }

  /** No painting is emitted twice. */
  predicate DistinctNodes(s: seq<seq<nat>>)
    requires Singletons(s)
  {
    forall i, j :: 0 <= i < j < |s| ==> s[i][0] != s[j][0]
  }

  /** The paintings of a list of one-painting frames. */
  function Emitted(s: seq<seq<nat>>): (r: set<nat>)
    requires Singletons(s)
    ensures forall x :: x in r <==> exists i :: 0 <= i < |s| && s[i][0] == x
  {
    set i | 0 <= i < |s| :: s[i][0]
  }

  lemma EmittedConcat(a: seq<seq<nat>>, b: seq<seq<nat>>)
    requires Singletons(a) && Singletons(b)
    ensures Singletons(a + b) && Emitted(a + b) == Emitted(a) + Emitted(b)
  {
    var s := a + b;
    forall x | x in Emitted(s) ensures x in Emitted(a) + Emitted(b) {
      var i :| 0 <= i < |s| && s[i][0] == x;
      if i < |a| {
        assert a[i] == s[i];
      } else {
        assert b[i - |a|] == s[i];
      }
    }
    forall x | x in Emitted(a) + Emitted(b) ensures x in Emitted(s) {
      if x in Emitted(a) {
        var i :| 0 <= i < |a| && a[i][0] == x;
        assert s[i] == a[i];
      } else {
        var i :| 0 <= i < |b| && b[i][0] == x;
        assert s[|a| + i] == b[i];
      }
    }
  }

  /** Every painting a graph mentions. */
  function Nodes(g: Graph): set<nat>
  {
    g.Keys + (set p, q | p in g && q in g[p] :: q)
  }

  /** The loop state of `traverse_graph`: the frames emitted so far are
      fresh, distinct paintings recorded in `now`; every painting on the stack
      or emitted has a witnessing walk from the start; every neighbour of an
      emitted painting is visited or on the stack. */
  ghost predicate Walking(g: Graph, start: nat, visited: set<nat>, now: set<nat>,
                          sequence: seq<seq<nat>>, stack: seq<nat>, via: map<nat, seq<nat>>)
  {
    && Singletons(sequence) && DistinctNodes(sequence)
    && now == visited + Emitted(sequence)
    && (forall i :: 0 <= i < |sequence| ==> sequence[i][0] !in visited && sequence[i][0] in g)
    && Witnesses(g, start, via)
    && AllIn(stack, via.Keys)
    && (forall i :: 0 <= i < |sequence| ==> sequence[i][0] in via)
    && (forall i, y :: 0 <= i < |sequence| && y in g[sequence[i][0]] ==> y in now || y in stack)
  }

  /** Popping a painting that is already visited keeps the loop state. */
  lemma PopVisited(g: Graph, start: nat, visited: set<nat>, now: set<nat>,
                   sequence: seq<seq<nat>>, stack: seq<nat>, via: map<nat, seq<nat>>)
    requires |stack| > 0 && stack[|stack| - 1] in now
    requires Walking(g, start, visited, now, sequence, stack, via)
    ensures Walking(g, start, visited, now, sequence, stack[..|stack| - 1], via)
  {
    var rest := stack[..|stack| - 1];
    AllInPopPush(stack, [], via.Keys);
    assert rest + [] == rest;
    forall i, y | 0 <= i < |sequence| && y in g[sequence[i][0]] ensures y in now || y in rest {
      if y !in now {
        var k :| 0 <= k < |stack| && stack[k] == y;
        assert k < |stack| - 1;
        assert rest[k] == y;
      }
    }
  }

  /** Emitting a fresh key `c` popped from the stack: the state holds again
      once all of `c`'s unvisited neighbours are pushed. */
  lemma Emit(g: Graph, start: nat, visited: set<nat>, now: set<nat>,
             sequence: seq<seq<nat>>, stack: seq<nat>, via: map<nat, seq<nat>>,
             pushed: seq<nat>, via': map<nat, seq<nat>>)
    requires |stack| > 0 && stack[|stack| - 1] !in now && stack[|stack| - 1] in g
    requires Walking(g, start, visited, now, sequence, stack, via)
    requires var c := stack[|stack| - 1];
      && (forall y :: y in g[c] ==> y in now + {c} || y in pushed)
      && AllIn(pushed, via'.Keys) && via.Keys <= via'.Keys && Witnesses(g, start, via')
    ensures var c := stack[|stack| - 1];
      Walking(g, start, visited, now + {c}, sequence + [[c]], stack[..|stack| - 1] + pushed, via')
  {
    var c := stack[|stack| - 1];
    var rest := stack[..|stack| - 1];
    var seq' := sequence + [[c]];
    var stack' := rest + pushed;
    EmittedConcat(sequence, [[c]]);
    assert [[c]][0][0] == c;
    assert Emitted([[c]]) == {c};
    assert AllIn(stack, via'.Keys);
    AllInPopPush(stack, pushed, via'.Keys);
    forall i, y | 0 <= i < |seq'| && y in g[seq'[i][0]] ensures y in now + {c} || y in stack' {
      if i < |sequence| {
        assert seq'[i] == sequence[i];
        if y !in now {
          var k :| 0 <= k < |stack| && stack[k] == y;
          if k < |stack| - 1 {
            assert stack'[k] == y;
          }
        }
      } else if y !in now + {c} {
        var k :| 0 <= k < |pushed| && pushed[k] == y;
        assert stack'[|rest| + k] == y;
      }
    }
    assert c in via;
  }

  /** Every element of `s` lies in `within`. */
  predicate AllIn(s: seq<nat>, within: set<nat>)
  {
    forall k :: 0 <= k < |s| ==> s[k] in within
  }

  lemma AllInPopPush(stack: seq<nat>, pushed: seq<nat>, within: set<nat>)
    requires |stack| > 0 && AllIn(stack, within) && AllIn(pushed, within)
    ensures AllIn(stack[..|stack| - 1] + pushed, within)
  {
    var s := stack[..|stack| - 1] + pushed;
    forall k | 0 <= k < |s| ensures s[k] in within {
      if k < |stack| - 1 {
        assert s[k] == stack[k];
      } else {
        assert s[k] == pushed[k - (|stack| - 1)];
      }
    }
  }

  /** Walks to the start recorded for every painting in `via`. */
  ghost predicate Witnesses(g: Graph, start: nat, via: map<nat, seq<nat>>)
  {
    forall x :: x in via ==> Path(g, via[x]) && via[x][0] == start && via[x][|via[x]| - 1] == x
  }

  /** Each pushed neighbour of `c` is reached by one more step from `c`. */
  ghost function Extend(via: map<nat, seq<nat>>, c: nat, pushed: seq<nat>): (via': map<nat, seq<nat>>)
    requires c in via
    ensures via.Keys <= via'.Keys && AllIn(pushed, via'.Keys)
  {
    via + map x | x in Elems(pushed) :: via[c] + [x]
  }

  lemma ExtendWitnesses(g: Graph, start: nat, via: map<nat, seq<nat>>, c: nat, pushed: seq<nat>)
    requires Witnesses(g, start, via) && c in via && c in g && AllIn(pushed, g[c])
    ensures Witnesses(g, start, Extend(via, c, pushed))
  {
    var via' := Extend(via, c, pushed);
    forall x | x in via' ensures Path(g, via'[x]) && via'[x][0] == start && via'[x][|via'[x]| - 1] == x {
      if x in Elems(pushed) {
        var k :| 0 <= k < |pushed| && pushed[k] == x;
        PathSnoc(g, via[c], x);
      }
    }
  }

  /** After `Walking`, every emitted painting is reachable from the start and
      once the stack is empty its neighbours are all visited. */
  lemma WalkDone(g: Graph, start: nat, visited: set<nat>, now: set<nat>,
                 sequence: seq<seq<nat>>, via: map<nat, seq<nat>>)
    requires Walking(g, start, visited, now, sequence, [], via)
    ensures forall i :: 0 <= i < |sequence| ==> g[sequence[i][0]] <= now && Reachable(g, start, sequence[i][0])
  {
    forall i | 0 <= i < |sequence|
      ensures g[sequence[i][0]] <= now && Reachable(g, start, sequence[i][0])
    {
      var x := sequence[i][0];
      assert Path(g, via[x]);
    }
  }

  /** In a symmetric graph every neighbour of a key is a key. */
  lemma NeighboursAreKeys(g: Graph, c: nat, visited: set<nat>, pushed: seq<nat>)
    requires Symmetric(g) && c in g && AllIn(pushed, g[c] - visited)
    ensures AllIn(pushed, g.Keys)
  {
    forall k | 0 <= k < |pushed| ensures pushed[k] in g {
      assert pushed[k] in g[c];
    }
  }

  /** The inner loop of `traverse_graph`: the neighbours of the current
      painting that are not yet visited, in the set's own order. */
  method PushUnvisited(neighbours: set<nat>, visited: set<nat>) returns (pushed: seq<nat>)
    ensures AllIn(pushed, neighbours - visited)
    ensures forall y :: y in neighbours && y !in visited ==> y in pushed
  {
    pushed := [];
    var rest := neighbours;
    while rest != {}
      invariant rest <= neighbours
      invariant AllIn(pushed, neighbours - visited)
      invariant forall y :: y in neighbours && y !in visited ==> y in rest || y in pushed
      decreases |rest|
    {
      var nb :| nb in rest;
      rest := rest - {nb};
      if nb !in visited {
        pushed := pushed + [nb];
      }
    }
  }

  /** The loop state of `traverse_graph`, with what the driver relies on:
      the walk starts at `start` (skipped when already visited), the stack
      stays within the graph's paintings, and within its keys when the graph
      is symmetric and the start is a key. */
  ghost predicate Traversing(g: Graph, start: nat, visited: set<nat>, now: set<nat>,
                             sequence: seq<seq<nat>>, stack: seq<nat>, via: map<nat, seq<nat>>,
                             universe: set<nat>)
  {
    && universe == Nodes(g) + {start}
    && Walking(g, start, visited, now, sequence, stack, via)
    && AllIn(stack, universe)
    && (start in visited ==> sequence == [] && (stack == [start] || stack == []) && now == visited)
    && (start !in visited && sequence == [] ==> stack == [start])
    && (|sequence| > 0 ==> sequence[0] == [start])
    && (Symmetric(g) && start in g ==> AllIn(stack, g.Keys))
  }

  lemma SkipStep(g: Graph, start: nat, visited: set<nat>, now: set<nat>,
                 sequence: seq<seq<nat>>, stack: seq<nat>, via: map<nat, seq<nat>>, universe: set<nat>)
    requires |stack| > 0 && stack[|stack| - 1] in now
    requires Traversing(g, start, visited, now, sequence, stack, via, universe)
    ensures Traversing(g, start, visited, now, sequence, stack[..|stack| - 1], via, universe)
  {
    PopVisited(g, start, visited, now, sequence, stack, via);
    AllInPopPush(stack, [], universe);
    if Symmetric(g) && start in g {
      AllInPopPush(stack, [], g.Keys);
    }
    assert stack[..|stack| - 1] + [] == stack[..|stack| - 1];
  }

  lemma EmitStep(g: Graph, start: nat, visited: set<nat>, now: set<nat>,
                 sequence: seq<seq<nat>>, stack: seq<nat>, via: map<nat, seq<nat>>, universe: set<nat>,
                 pushed: seq<nat>)
    requires |stack| > 0 && stack[|stack| - 1] !in now && stack[|stack| - 1] in g
    requires Traversing(g, start, visited, now, sequence, stack, via, universe)
    requires var c := stack[|stack| - 1];
      && AllIn(pushed, g[c] - (now + {c}))
      && forall y :: y in g[c] && y !in now + {c} ==> y in pushed
    ensures var c := stack[|stack| - 1];
      && c in via && c in universe
      && Traversing(g, start, visited, now + {c}, sequence + [[c]], stack[..|stack| - 1] + pushed,
                    Extend(via, c, pushed), universe)
  {
    var c := stack[|stack| - 1];
    assert c in via;
    var via' := Extend(via, c, pushed);
    assert AllIn(pushed, g[c]);
    ExtendWitnesses(g, start, via, c, pushed);
    Emit(g, start, visited, now, sequence, stack, via, pushed, via');
    assert AllIn(pushed, universe) by {
      assert g[c] <= Nodes(g);
    }
    AllInPopPush(stack, pushed, universe);
    if Symmetric(g) && start in g {
      NeighboursAreKeys(g, c, now + {c}, pushed);
      AllInPopPush(stack, pushed, g.Keys);
    }
  }

  /** How many paintings of the universe are left to visit. */
  function ToVisit(universe: set<nat>, now: set<nat>): nat
  {
    |universe - now|
  }

  /** Visiting a fresh painting of the universe leaves fewer to visit. */
  lemma Progress(universe: set<nat>, now: set<nat>, c: nat)
    requires c in universe && c !in now
    ensures ToVisit(universe, now + {c}) < ToVisit(universe, now)
  {
    assert universe - (now + {c}) == (universe - now) - {c};
  }

  /** A popped painting missing from the graph is the start itself, or the
      graph is not symmetric. */
  lemma KeyErrorOnlyAtStart(g: Graph, start: nat, visited: set<nat>, now: set<nat>,
                            sequence: seq<seq<nat>>, stack: seq<nat>, via: map<nat, seq<nat>>, universe: set<nat>)
    requires |stack| > 0 && stack[|stack| - 1] !in g
    requires Traversing(g, start, visited, now, sequence, stack, via, universe)
    ensures !(Symmetric(g) && start in g)
  {
  }

  /** The walk's results once the stack is empty. */
  lemma TraverseDone(g: Graph, start: nat, visited: set<nat>, now: set<nat>,
                     sequence: seq<seq<nat>>, via: map<nat, seq<nat>>, universe: set<nat>)
    requires Traversing(g, start, visited, now, sequence, [], via, universe)
    ensures start in visited ==> sequence == [] && now == visited
    ensures start !in visited ==> |sequence| > 0 && sequence[0] == [start] && start in g
    ensures Singletons(sequence) && DistinctNodes(sequence) && now == visited + Emitted(sequence)
    ensures forall i :: 0 <= i < |sequence| ==>
      && sequence[i][0] !in visited
      && sequence[i][0] in g
      && g[sequence[i][0]] <= now
      && Reachable(g, start, sequence[i][0])
  {
    WalkDone(g, start, visited, now, sequence, via);
  }

  /** The state before the walk: nothing emitted, the start on the stack. */
  lemma TraverseStart(g: Graph, start: nat, visited: set<nat>)
    ensures Traversing(g, start, visited, visited, [], [start], map[start := [start]], Nodes(g) + {start})
  {
    var via := map[start := [start]];
    assert Path(g, [start]);
    assert Witnesses(g, start, via);
    assert Emitted([]) == {};
  }

  /** `traverse_graph`: a depth-first walk from `start` with an explicit
      stack. A popped painting already visited is skipped; otherwise it is
      visited, emitted as a one-painting frame, and its unvisited neighbours
      are pushed. Looking up a painting that is not a key of the graph raises
      `KeyError`. Returns the frames and the visited set after the walk. */
  method Traverse(g: Graph, start: nat, visited: set<nat>)
    returns (r: Result<seq<seq<nat>>, string>, visitedOut: set<nat>)
    ensures start in visited ==> r == Success([]) && visitedOut == visited
    ensures start !in visited && start !in g ==> r.Failure?
    ensures Symmetric(g) && start in g ==> r.Success?
    ensures r.Success? ==> && Singletons(r.value) && DistinctNodes(r.value)
                           && visitedOut == visited + Emitted(r.value)
    ensures r.Success? ==> forall i :: 0 <= i < |r.value| ==>
      && r.value[i][0] !in visited
      && r.value[i][0] in g
      && g[r.value[i][0]] <= visitedOut
      && Reachable(g, start, r.value[i][0])
    ensures r.Success? && start !in visited ==> |r.value| > 0 && r.value[0] == [start]
  {
    var sequence: seq<seq<nat>> := [];
    var stack := [start];
    visitedOut := visited;
    ghost var via: map<nat, seq<nat>> := map[start := [start]];
    ghost var universe: set<nat> := Nodes(g) + {start};
    TraverseStart(g, start, visited);
    while |stack| > 0
      invariant Traversing(g, start, visited, visitedOut, sequence, stack, via, universe)
      decreases ToVisit(universe, visitedOut), |stack|
    {
      var current := stack[|stack| - 1];
      if current in visitedOut {
        SkipStep(g, start, visited, visitedOut, sequence, stack, via, universe);
        stack := stack[..|stack| - 1];
      } else {
        ghost var now, emitted := visitedOut, sequence;
        visitedOut := visitedOut + {current};
        sequence := sequence + [[current]];
        if current !in g {
          KeyErrorOnlyAtStart(g, start, visited, now, emitted, stack, via, universe);
          r := Failure("KeyError");
          return;
        }
        var pushed := PushUnvisited(g[current], visitedOut);
        EmitStep(g, start, visited, now, emitted, stack, via, universe, pushed);
        Progress(universe, now, current);
        stack := stack[..|stack| - 1] + pushed;
        via := Extend(via, current, pushed);
      }
    }
    TraverseDone(g, start, visited, visitedOut, sequence, via, universe);
    r := Success(sequence);
  }

  /** Every key of the graph is a row of the collection. */
  lemma GraphKeysAreRows(rows: seq<Tags>)
    ensures forall p :: p in ConstructGraph(TagMap(rows, |rows|)) ==> p < |rows|
  {
    var m := TagMap(rows, |rows|);
    forall p | p in ConstructGraph(m) ensures p < |rows| {
      var t :| t in m && |m[t]| == 2 && p in m[t];
      assert m[t] == CarrierList(rows, t, |rows|);
    }
  }

  /** Frames of graph keys can be looked up among the rows. */
  lemma FramesAreRows(s: seq<seq<nat>>, g: Graph, rows: seq<Tags>)
    requires Singletons(s) && Emitted(s) <= g.Keys
    requires forall p :: p in g ==> p < |rows|
    ensures forall i :: 0 <= i < |s| ==> ValidFrame(s[i], rows)
  {
    forall i | 0 <= i < |s| ensures ValidFrame(s[i], rows) {
      assert s[i][0] in Emitted(s);
    }
  }

  lemma DistinctConcat(a: seq<seq<nat>>, b: seq<seq<nat>>)
    requires Singletons(a) && Singletons(b) && DistinctNodes(a) && DistinctNodes(b)
    requires Emitted(a) !! Emitted(b)
    ensures Singletons(a + b) && DistinctNodes(a + b)
  {
    var s := a + b;
    forall i, j | 0 <= i < j < |s| ensures s[i][0] != s[j][0] {
      if j < |a| {
        assert s[i] == a[i] && s[j] == a[j];
      } else if i >= |a| {
        assert s[i] == b[i - |a|] && s[j] == b[j - |a|];
      } else {
        assert s[i] == a[i] && s[j] == b[j - |a|];
        assert s[i][0] in Emitted(a) && s[j][0] in Emitted(b);
      }
    }
  }

  /** Every painting below `n` is a key of the graph. */
  predicate AllKeys(g: Graph, n: nat)
  {
    forall p: nat :: p < n ==> p in g
  }

  /** The state of the driver loop after the paintings below `painting`:
      one-painting frames, none twice, every emitted painting a key of the
      graph and visited, and every painting below `painting` visited. */
  predicate Walked(g: Graph, painting: nat, visited: set<nat>, sequences: seq<seq<nat>>)
  {
    && Singletons(sequences) && DistinctNodes(sequences)
    && visited == Emitted(sequences) && visited <= g.Keys
    && forall q :: 0 <= q < painting ==> q in visited
  }

  /** A successful walk from an unvisited painting extends the state. */
  lemma WalkStep(g: Graph, painting: nat, visited: set<nat>, sequences: seq<seq<nat>>,
                 walk: seq<seq<nat>>, visitedOut: set<nat>)
    requires Walked(g, painting, visited, sequences) && painting !in visited
    requires Singletons(walk) && DistinctNodes(walk) && visitedOut == visited + Emitted(walk)
    requires forall i :: 0 <= i < |walk| ==> walk[i][0] !in visited && walk[i][0] in g
    requires |walk| > 0 && walk[0] == [painting]
    ensures Walked(g, painting + 1, visitedOut, sequences + walk)
  {
    assert Emitted(walk) <= visitedOut - visited;
    DistinctConcat(sequences, walk);
    EmittedConcat(sequences, walk);
    assert walk[0][0] == painting;
  }

  /** Steps 1 to 4 of `process_landscapes_with_graph`, given the first line's
      painting count and the rows' tag sets: build the tag map and the graph,
      walk from every painting below the count not yet visited, and score the
      frames. The first walk that starts at a painting outside the graph
      raises `KeyError`, so the run fails iff some painting below the count
      carries no tag of exactly two carriers; otherwise each of those
      paintings is emitted exactly once. */
  method ProcessLandscapes(n: nat, rows: seq<Tags>) returns (r: Result<seq<seq<nat>>, string>, score: nat)
    ensures r.Failure? <==> !AllKeys(ConstructGraph(TagMap(rows, |rows|)), n)
    ensures r.Success? ==> && Singletons(r.value) && DistinctNodes(r.value)
                           && (forall p: nat :: p < n ==> p in Emitted(r.value))
                           && Emitted(r.value) <= ConstructGraph(TagMap(rows, |rows|)).Keys
    ensures r.Success? ==> score == GlobalScore(FramesTags(r.value, rows))
  {
    var g := ConstructGraph(TagMap(rows, |rows|));
    GraphSymmetric(TagMap(rows, |rows|));
    var visited: set<nat> := {};
    var sequences: seq<seq<nat>> := [];
    score := 0;
    for painting := 0 to n
      invariant Walked(g, painting, visited, sequences)
    {
      if painting !in visited {
        var res, visitedOut := Traverse(g, painting, visited);
        if res.Failure? {
          assert !AllKeys(g, n) by {
            assert painting !in g;
          }
          r := Failure(res.error);
          return;
        }
        WalkStep(g, painting, visited, sequences, res.value, visitedOut);
        sequences := sequences + res.value;
        visited := visitedOut;
      }
    }
    r := Success(sequences);
    GraphKeysAreRows(rows);
    FramesAreRows(sequences, g, rows);
    score := CalculateScore(sequences, rows);
  }
}
