# Frameglass arrangement heuristics, modelled in Dafny

The repository contains five scripts for one puzzle. Paintings are either
landscapes (`L`) or portraits (`P`), and each painting carries a set of tags.
A *frameglass* holds one landscape or two portraits. Its tags are the union of
its paintings' tags. An exhibition is a sequence of frameglasses. The
*local satisfaction* of two neighbouring frameglasses is
`min(|common tags|, |tags only in the first|, |tags only in the second|)`.
The *global score* is the sum of the local satisfactions along the sequence.
Each script builds frameglasses in its own way and orders them greedily.

This project models the core of each script as pure functions over sequences,
sets and maps. Methods mirror the scripts' loops. Most methods are proved
equal to a recursive reference definition, and lemmas state what those
definitions guarantee. `BinaryLandscapes.Traverse`,
`BinaryLandscapes.PushUnvisited`, `BinaryLandscapes.ProcessLandscapes` and
`RareTags.ArrangeByRareTags` carry declarative contracts instead.

The reference definitions are these:

- `Scoring.GlobalScore` is the recursive global score.
- `Greedy.GreedyOrder` (built on `Greedy.Chain`) is the greedy next-frameglass order. `OptimizeSequence`, `GreedyArrangement` and `OptimizeFrameglassSequence` are proved equal to it.
- `Pairing.GreedyPair` is the pairing loop. `PairPortraits` and `FastPairPortraits` are proved equal to it. The loop of `create_frameglasses` at lines 39-47 of `10_computable_moments.py` is defined through it.
- `HeapGreedy.HeapOrder` is the heap greedy order, and `FastGreedy` is proved equal to it.
- `HeapGreedy.BatchOrder` is the batch order, and `BatchProcessing` is proved equal to it.
- `RareTags.RareOrder` is the ascending-frequency tag order.

`ComputableMoments.CreateFrameglasses` is the model of `create_frameglasses`. The lemmas listed after it state its properties.

| file | module | script |
|---|---|---|
| `wrappers.dfy` | `Wrappers` | `Option` for the `None` / `-inf` sentinels; `Result` for operations that raise |
| `scoring.dfy` | `Scoring` | local satisfaction, global score, the frame scorer `calculate_score` |
| `selection.dfy` | `Selection` | first-maximum scans (`max`, strict `>` loops), removal by position and by value, the heap order |
| `greedy.dfy` | `Greedy` | the greedy "append the best next frameglass" order, with and without a candidate window |
| `stable_sort.dfy` | `StableSort`, `StableSortFacts` | Python's stable `list.sort(key=…)` |
| `pairing.dfy` | `Pairing`, `PairingOrder` | greedy portrait pairing: pop the front, pair it with the first best partner |
| `computable_moments.dfy` | `ComputableMoments` | `10_computable_moments.py` |
| `oily_portraits.dfy` | `OilyPortraits` | `110_oily_portraits.py` |
| `randomizing_paintings.dfy` | `RandomizingPaintings` | `pair_portraits` of `11_randomizing_paintings.py` |
| `rare_tags.dfy` | `RareTags` | `arrange_landscapes_by_rare_tags` of `11_randomizing_paintings.py` |
| `heap_greedy.dfy` | `HeapGreedy` | `fast_greedy` and `batch_processing` of `11_randomizing_paintings.py` |
| `main_script.dfy` | `MainScript` | `main.py` |
| `binary_landscapes.dfy` | `BinaryLandscapes` | `1_binary_landscapes.py` |

Conventions:

- Painting indices are `nat`. Tags are `set<string>`.
- A frame (a list of painting indices) is `seq<nat>`.
- The scripts' tag caches (`dict` from index to tag set) are `seq<Tags>` indexed by painting.
- Python's `max(…, key=…)` and the scripts' strict-`>` scans both return the *first* position of greatest score. `Selection.FirstMax` models both.
- `float('-inf')` starting values become `None`. The integer sentinel `-1` stays `Some(-1)`.
- `list.pop(0)` / `list.remove(x)` become `s[1..]`, `RemoveAt` and `RemoveFirst`.

The three scripts that score frames through a tag cache share one definition of
`calculate_score`: lines 21-33 of `110_oily_portraits.py`, lines 23-35 of
`11_randomizing_paintings.py`, and lines 106-118 of `1_binary_landscapes.py`.
The two local-satisfaction functions share another: lines 51-58 of
`10_computable_moments.py` and lines 52-56 of `main.py`. Each is modelled once,
in `Scoring`.

The source is followed where it is peculiar:

- `110_oily_portraits.py` pairs *every* painting, landscapes included, because its driver passes all indices.
- `main.py` keeps only the first index of a portrait pair. It drops an odd last portrait.
- `main.py` scores each tag *list* as a set, so a repeated tag counts once.
- `1_binary_landscapes.py` raises `KeyError` when a painting shares no tag with exactly one other painting. This is modelled as a `Failure` result.

## Model

| member | source | states |
|---|---|---|
| Scoring.Min3 | 10_computable_moments.py:58 | the result is one of the three arguments and at most each of them |
| Scoring.Local | 10_computable_moments.py:51-58 | local satisfaction is at most the common count and at most each one-sided count |
| Scoring.LocalAttained | 10_computable_moments.py:51-58 | local satisfaction equals one of the three counts |
| Scoring.LocalSymmetric | main.py:52-56 | swapping the two frameglasses does not change local satisfaction |
| Scoring.LocalEqualIsZero | 10_computable_moments.py:51-58 | a frameglass next to one with the same tags scores 0, since nothing is one-sided |
| Scoring.LocalAtMostHalf | 10_computable_moments.py:51-58 | twice the local satisfaction is at most the tag count of either side |
| Scoring.GlobalScoreSnoc | 10_computable_moments.py:72-79 | appending a frameglass adds exactly its local satisfaction with the old last one |
| Scoring.GlobalScoreConcat | 10_computable_moments.py:72-79 | the score of a concatenation is both scores plus the satisfaction across the seam |
| Scoring.GlobalScoreBound | 10_computable_moments.py:72-79 | twice the global score never exceeds the total tag count of the sequence |
| Scoring.AdjacentSum | main.py:59-71 | the running sum over `range(len - 1)` equals the recursive global score |
| Scoring.FrameTags | 110_oily_portraits.py:92 | a frame's tags are exactly the tags of some member painting found in the cache |
| Scoring.CalculateScore | 110_oily_portraits.py:21-33 | the loop computes the global score of the frames' looked-up tag unions; 0 for fewer than two frames |
| Selection.FirstMax | 10_computable_moments.py:41 | the chosen position scores at least every other and strictly more than every earlier one |
| Selection.ScanBest | 110_oily_portraits.py:50-67 | the strict-`>` scan finds nothing exactly when no score beats the floor; otherwise it finds the first maximum |
| Selection.FirstMaxSnoc | 110_oily_portraits.py:64-67 | one more candidate becomes the best only when it beats the current best strictly |
| Selection.RemoveAt | 110_oily_portraits.py:73 | `pop(k)` keeps the order of the others and removes exactly one copy of element `k` |
| Selection.IndexOf | 10_computable_moments.py:69 | `list.remove` finds the first occurrence of the value |
| Selection.RemoveFirstMaxByValue | 10_computable_moments.py:66-69 | removing the chosen maximum by value removes the element at the chosen position, even with duplicates |
| Selection.LexTotal | 11_randomizing_paintings.py:129 | Python's list comparison of two different frames orders one before the other |
| Selection.LexTransitive | 11_randomizing_paintings.py:129 | list comparison is transitive |
| Selection.LexIrreflexive | 11_randomizing_paintings.py:129 | no frame is less than itself |
| Selection.HeapBeforeTransitive | 11_randomizing_paintings.py:129-132 | the heap's `(score, frame)` tuple order is transitive |
| Selection.HeapMin | 11_randomizing_paintings.py:132 | `heappop` yields a frame of the pool that no other frame precedes in tuple order |
| Selection.HeapMinOrderFree | 11_randomizing_paintings.py:122-132 | the popped frame depends only on the pool's contents, not on push order |
| Greedy.Pick | 110_oily_portraits.py:95-110 | the chosen candidate is the first of greatest satisfaction among the windowed pool |
| Greedy.PickUnique | 110_oily_portraits.py:95-110 | any candidate meeting the greedy-pick condition is the chosen one |
| Greedy.GreedyOrder | 10_computable_moments.py:60-70 | the greedy order keeps the first frameglass first and is a permutation of the input |
| Greedy.ChainIsGreedy | 10_computable_moments.py:65-69 | every step of the reference order appends a greedy pick from what remains |
| Greedy.GreedyIsChain | 10_computable_moments.py:65-69 | any order whose every step is a greedy pick equals the reference order |
| Greedy.ScanIsPick | 10_computable_moments.py:66 | the first maximum of the satisfaction list is the greedy pick |
| StableSort.SortBy | 10_computable_moments.py:37 | the sort yields a key-ordered permutation whose equal-key runs keep input order |
| StableSort.InsertSorted | 10_computable_moments.py:37 | inserting into a key-ordered list keeps it key-ordered |
| StableSort.InsertMultiset | 10_computable_moments.py:37 | insertion adds exactly the inserted element |
| StableSortFacts.StableTies | 110_oily_portraits.py:43 | equal-key elements keep the relative rank they had in the input |
| Pairing.Diversity | 110_oily_portraits.py:60-62 | union size minus intersection size is the size of the symmetric difference |
| Pairing.PairRound | 110_oily_portraits.py:46-75 | one round takes the front plus at most one partner, splitting the list into that group and the rest; single exactly when no candidate is left in the window |
| Pairing.GreedyPairPartition | 10_computable_moments.py:39-47 | the groups together contain each input painting exactly once |
| Pairing.GreedyPairCount | 10_computable_moments.py:39-47 | without a window, `n` paintings form `(n + 1) / 2` groups |
| Pairing.GreedyPairShape | 10_computable_moments.py:39-43 | without a window, every group but the last is a pair |
| Pairing.GreedyPairLastSingle | 10_computable_moments.py:46-47 | the last group is a single exactly when the number of paintings is odd |
| Pairing.OpenWindowPairs | 10_computable_moments.py:39-43 | without a window, a round makes a single only when one painting is left |
| Pairing.RoundSorted | 110_oily_portraits.py:46-73 | after a round, the remaining list is still in sorted order |
| PairingOrder.GreedyPairHeadsLeast | 110_oily_portraits.py:43-46 | on a sorted list, each group's first painting ranks no later than any painting of that group or a later group |
| ComputableMoments.OfKind | 10_computable_moments.py:27-31 | paintings of one type in index order: exactly those of that type, with their tags |
| ComputableMoments.CreateFrameglasses | 10_computable_moments.py:27-49 | the result is the landscape frameglasses followed by the portrait frameglasses, `L + (P + 1) / 2` in all (the early return without portraits included) |
| ComputableMoments.LandscapesFirst | 10_computable_moments.py:27-34 | each landscape becomes a one-painting frameglass, in input order, ahead of every portrait frameglass; with no portraits these are all |
| ComputableMoments.PortraitFramesPartition | 10_computable_moments.py:36-49 | after the landscapes come `(P + 1) / 2` portrait frameglasses that use every portrait exactly once |
| ComputableMoments.PortraitFramesShape | 10_computable_moments.py:39-47 | portrait frameglasses are pairs except possibly the last, a single exactly when the portrait count is odd |
| ComputableMoments.TagsAreMemberUnion | 10_computable_moments.py:43-47 | every created frameglass's tags are the union of its members' tags |
| ComputableMoments.PortraitSortOrder | 10_computable_moments.py:37 | portraits are ordered by descending tag count, with equal counts in index order |
| ComputableMoments.PairHeadsMostTags | 10_computable_moments.py:40 | each pair's first portrait has at least as many tags as every portrait not yet paired |
| ComputableMoments.OptimizeSequence | 10_computable_moments.py:60-70 | the loop yields the greedy order: first frameglass first, then the first best next one; a permutation |
| ComputableMoments.CalculateGlobalScore | 10_computable_moments.py:72-79 | the sum over adjacent pairs equals the global score of the cached tags; 0 for fewer than two |
| ComputableMoments.CachedScoreAgrees | 10_computable_moments.py:72-79 | if frameglasses cache their members' tags, scoring the cache equals scoring looked-up member tags |
| ComputableMoments.ArrangedScoreAgrees | 10_computable_moments.py:94-99 | any arrangement of the created frameglasses scores the same by cached tags as by the input's tags |
| OilyPortraits.FastPairPortraits | 110_oily_portraits.py:36-77 | the loop pairs the windowed greedy pairing (window 50) of the tag-count-sorted paintings |
| OilyPortraits.FrontUnused | 110_oily_portraits.py:46-48 | the popped painting is never already used, so the `continue` at line 48 is never taken |
| OilyPortraits.GreedyArrangement | 110_oily_portraits.py:80-115 | the loop yields the windowed greedy order (window 100): first frame first, a permutation |
| RandomizingPaintings.Unused | 11_randomizing_paintings.py:47-53 | the items the scans do not skip: exactly those whose index is not yet used |
| RandomizingPaintings.UnusedMark | 11_randomizing_paintings.py:62-63 | marking the `j`-th unused item used removes exactly that one from the unused items |
| RandomizingPaintings.DiversityAboveSentinel | 11_randomizing_paintings.py:50-59 | starting from `-1`, the scan finds a partner whenever any candidate exists |
| RandomizingPaintings.PairPortraits | 11_randomizing_paintings.py:38-66 | the used-set loop emits the greedy pairing of the list in input order |
| RareTags.FirstTag | 11_randomizing_paintings.py:84-90 | the first rare tag whose carrier list holds the painting: no earlier tag has it |
| RareTags.Carriers | 11_randomizing_paintings.py:76-79 | the list for a tag contains exactly the paintings carrying it |
| RareTags.ArrangeByRareTags | 11_randomizing_paintings.py:69-92 | single-painting frames, none repeated, holding exactly the paintings with a tag, ordered by first rare tag and then by input order |
| RareTags.RareCoverage | 11_randomizing_paintings.py:73-79 | a painting is placed exactly when it has at least one tag |
| HeapGreedy.HeapPick | 11_randomizing_paintings.py:122-133 | each appended frame is the pool's least `(-satisfaction, frame)` entry, and only it |
| HeapGreedy.HeapChainOrderFree | 11_randomizing_paintings.py:131-144 | the heap order depends only on the pool's contents |
| HeapGreedy.HeapOrderIdempotent | 11_randomizing_paintings.py:106-111 | re-running the heap order on its own output changes nothing |
| HeapGreedy.FastGreedy | 11_randomizing_paintings.py:115-146 | rebuilding the heap from scratch at every step yields the reference heap order |
| HeapGreedy.Chunks | 11_randomizing_paintings.py:99 | slices are non-empty, full-sized except the last, and concatenate back to the input |
| HeapGreedy.BatchOrderPermutes | 11_randomizing_paintings.py:95-112 | batch processing rearranges the frames and loses or adds none |
| HeapGreedy.BatchOrderOneBatch | 11_randomizing_paintings.py:95-112 | a list no longer than one batch is simply heap-ordered |
| HeapGreedy.BatchReorder | 11_randomizing_paintings.py:106-111 | the second pass over an ordered batch returns it unchanged |
| HeapGreedy.BatchProcessing | 11_randomizing_paintings.py:95-112 | batch size 0 raises; a negative size yields an empty list; a positive one yields the batch-wise heap order |
| MainScript.TagTokens | main.py:29-31 | the tags are what follows the type letter and the count: those two tokens followed by the tags give back the line, and there are two fewer tags than tokens (none for a shorter line) |
| MainScript.OfKind | main.py:25-38 | entries of one type letter in line order: exactly the lines of that type |
| MainScript.PairConsecutive | main.py:45-47 | there are `⌊P / 2⌋` pairs; pair `j` keeps portrait `2j`'s index and joins the tag lists of `2j` and `2j + 1` |
| MainScript.GenerateChecked | main.py:25-47 | a blank line raises IndexError; otherwise the result holds the landscapes in line order, then the `⌊P / 2⌋` consecutive portrait pairs |
| MainScript.GenerateShape | main.py:41-47 | landscapes first in line order, then the `⌊P / 2⌋` portrait pairs |
| MainScript.LostPortraits | main.py:45-47 | the index of every second portrait of a pair, and of an odd last portrait, appears in no frameglass |
| MainScript.GlobalSatisfaction | main.py:59-71 | the loop computes the global score over the tag sets; 0 for fewer than two |
| MainScript.GlobalSatisfactionBySets | main.py:64-69 | only the distinct tags matter: lists with the same tag sets score alike |
| MainScript.SatisfactionAboveSentinel | main.py:84-94 | starting from `-1`, the scan finds a frameglass whenever any remain |
| MainScript.OptimizeFrameglassSequence | main.py:74-101 | the loop yields the greedy order: first frameglass first, a permutation |
| BinaryLandscapes.TagMap | 1_binary_landscapes.py:19-25 | a tag maps to the increasing list of its carriers, and only carried tags are keys |
| BinaryLandscapes.TagListIsCarriers | 1_binary_landscapes.py:19-25 | each list holds exactly the tag's carriers, once each |
| BinaryLandscapes.ConstructGraph | 1_binary_landscapes.py:30-44 | nodes are the paintings of two-painting tags; `q` neighbours `p` exactly when such a tag joins them |
| BinaryLandscapes.GraphSymmetric | 1_binary_landscapes.py:41-42 | every edge is recorded in both directions |
| BinaryLandscapes.GraphNoSelfLoops | 1_binary_landscapes.py:35-42 | no painting neighbours itself |
| BinaryLandscapes.EdgeIffSharedPair | 1_binary_landscapes.py:30-44 | two paintings are adjacent exactly when they differ and are the only two carriers of some tag |
| BinaryLandscapes.PushUnvisited | 1_binary_landscapes.py:60-62 | exactly the unvisited neighbours are pushed |
| BinaryLandscapes.Traverse | 1_binary_landscapes.py:47-64 | the DFS emits each newly visited node once as a single frame, beginning with the start; every node it emits is reachable from the start and has all its neighbours visited; `graph[current]` raises only for a start outside the graph |
| BinaryLandscapes.ProcessLandscapes | 1_binary_landscapes.py:67-89 | fails exactly when some painting below `n` is not a graph node; otherwise every painting is emitted once as a single frame and the score is the global score of the frames |

## Left out

- Reading and parsing files (`parse_input`, `read_input`, `read_file`, pandas frames): the models take the parsed paintings or token lines as parameters.
- Writing output files, `print`, and `time`: drivers return the score and the frames instead.
- The drivers' composition of steps (`process_data`, `process_file_with_fast_optimization`, `process_file_with_optimizations`): each step is modelled separately, and `ArrangedScoreAgrees` links the last two steps of `10_computable_moments.py`.
- In-place mutation of the caller's list by `pop(0)` and `remove` is not modelled. Each model returns its result as a new sequence.
- `ComputableMoments.OptimizeSequence`, `OilyPortraits.GreedyArrangement`, `HeapGreedy.FastGreedy`: the argument list is emptied in place by `pop(0)` / `remove`. This is not modelled, because no caller reads the list afterwards.
- The iteration order of a `Counter`, `dict` or `set` is a parameter or a fixed index order. `ArrangeByRareTags` takes the `Counter`'s key order as `keys`. `PushUnvisited` takes the neighbours in an arbitrary order, and `Traverse`'s contract holds for every order.
- `heapq` internals: only the pop order matters, modelled as the least element in `(score, frame)` tuple order.
- Python integers and set sizes are unbounded, so no wrap-around is modelled.
- `OilyPortraits.GreedyArrangement`: the fallback at lines 111-113 of `110_oily_portraits.py` is dead code, because a non-empty pool always yields a candidate. It is marked unreachable rather than modelled.
- `RareTags.ArrangeByRareTags`: the `tag not in tag_to_paintings` skip at lines 85-86 of `11_randomizing_paintings.py` never fires, because every counted tag has carriers.
- `OilyPortraits.FastPairPortraits`, `RandomizingPaintings.PairPortraits`: both require distinct painting indices. The source gets this from its dictionary keys.
- `ComputableMoments.OptimizeSequence`, `MainScript.OptimizeFrameglassSequence`, `OilyPortraits.GreedyArrangement`, `HeapGreedy.FastGreedy`: an empty input is excluded by `requires`. The source raises IndexError at its first `pop(0)`.
- `MainScript.OfKind`: requires non-blank lines. The blank-line IndexError is modelled separately by `MainScript.GenerateChecked`.
- `Scoring.CalculateScore`, `OilyPortraits.GreedyArrangement`, `HeapGreedy.FastGreedy`, `HeapGreedy.BatchProcessing`: these require every frame to be non-empty with cached indices. The source would raise `KeyError`, or `TypeError` from `set.union()` with no arguments.
- `BinaryLandscapes.ProcessLandscapes`: the painting count `num_paintings` is the parameter `n`, independent of the number of tag rows, as in the source.
