# Coda segmentation search, modelled in Dafny

This project models the segmentation search of `scripts/0_extract_codas.py`.
That search splits a train of sperm-whale clicks into codas. A click train
arrives as its inter-click intervals (ICIs). The search works in three steps:

- **Scoring a window.** `coda_distances` normalises a window of intervals
  by its own sum and takes the running sum. It cuts that running sum to the
  length of each coda template (the "means") and measures the L1
  (Manhattan) distance to the template. A template takes part only if:
  - its label is not -1;
  - it is no longer than the window;
  - the running sum reaches 1.0 (within 1e-10) exactly once in strict mode
    (`only_equal`), or at most once in lenient mode.
- **Ranking.** `get_candidates_sorted_filtered` sorts those distances
  ascending, with ties kept in library order, and keeps the ones within a
  threshold. `get_coda` picks the single best one.
- **Building the tree.** `get_coda_tree` ranks the candidates for the first
  `eval` intervals (at most `limit` of them). `expand_tree` then hangs one
  or two children per candidate under the current `TreeNode` and recurses
  on what the child leaves over. When a window yields nothing, a one-click noise node
  (label 100) is tried in front of a shifted window, and the window shrinks
  by one. `TreeNode.get_best_path` then scores every root-to-leaf branch,
  charging `extra` for each noise node, and returns the cheapest.

The model is organised as follows:

- `wrappers.dfy`: an `Option` type.
- `sorting.dfy`: Python's stable `sorted` as an insertion sort, with its
  permutation, order and stability properties.
- `distance.dfy`: `coda_distances` as a function (`Distances`) and as its
  loop (`CodaDistances`). It also holds the arithmetic of the running sum.
  This explains when strict mode accepts a template.
- `candidates.dfy`: `get_candidates_sorted_filtered` and `get_coda`.
- `tree.dfy`: the `TreeNode` class. Its `children` are updated in place by
  `AddChild`, and a ghost value `model` and footprint `Repr` describe its
  subtree.
- `builder.dfy`: the tree the search builds, in two forms.
  - As a value: `CodaTree`, `NoiseStep`, `Expand`, `ExpandOne`.
  - In place on `TreeNode` objects: `GetCodaTree`, `NoiseFallback`,
    `ExpandTree`, `ExpandCandidate`. Each is proved to build exactly the
    value above.
- `shape.dfy`: the shape of that tree. Children are contiguous with their
  parent, within the window and the input. Label-100 children come from two
  places. One is the noise fallback of `get_coda_tree`, which adds one only
  under its two conditions. The other is the leaf `expand_tree` hangs when
  exactly one interval is left over. When no template is labelled 100, no
  node gets two label-100 children.
- `bestpath.dfy`: `get_best_path`, proved against an independent
  definition by root-to-leaf branches.
- `segmentation.dfy`: one click train end to end, and the checks the report
  loop makes on the path it gets.

Several behaviours of the code are modelled exactly as written:

- When a candidate leaves more than one interval over, `expand_tree` adds
  the grown child twice (lines 134 and 137). `Builder.ExpandOne` does the
  same. `BestPath.DuplicateChildKeepsBestScore` shows that the duplicate
  does not change the best score.
- The result of the recursive call with a smaller window (lines 190-200) is
  discarded. It is the same object, grown in place, and
  `Builder.GetCodaTree` models it that way.
- The recursion inside `expand_tree` passes on the current window size,
  not 9.
- The candidates for the shifted window after a noise node are not cut to
  `limit`.
- `get_best_path` has no filter on how much of the input a path covers.
  When the root has no children, the result is the root's own step
  `(None, 0, 0)`.

## Model

| member | source | states |
|---|---|---|
| Sorting.SortBy | scripts/0_extract_codas.py:86 | `sorted(..., key=...)` returns a permutation of its input (same multiset and length), ordered by the key |
| Sorting.SortByStable | scripts/0_extract_codas.py:95 | the sort is stable: for every key value, the elements with that key keep their input order |
| Sorting.FirstWithKey | scripts/0_extract_codas.py:86-88 | the head of the elements of a sequence with key k is the first element of that sequence with key k (with `SortByStable`, this gives first-of-ties in `Candidates.RankingHeadFirstOfTies`) |
| Sorting.SortByHeadFirstOfLeast | scripts/0_extract_codas.py:86-88 | the head of the sorted list is the first element of least key in the input: ties keep input order |
| Sorting.SortByMembers | scripts/0_extract_codas.py:62 | sorting keeps exactly the elements it was given |
| Distance.LengthOf | scripts/0_extract_codas.py:115 | `coda_lengths[label]` is positive and is the length of the template with that label |
| Distance.CumSum | scripts/0_extract_codas.py:74 | entry k of `np.cumsum` is the sum of the first k+1 entries |
| Distance.Sum | scripts/0_extract_codas.py:74 | `sequence_.sum()`: at least 0 for positive intervals, and above 0 for a non-empty window of them |
| Distance.Profile | scripts/0_extract_codas.py:74 | the normalised running sum cut to n entries: entry k is the share of the window's total reached after k+1 intervals |
| Distance.NearOne | scripts/0_extract_codas.py:75 | definition: `abs(x - 1.0) < 1e-10`; its meaning on the running sum is stated by `Distance.NearOneIffTailNegligible` and `Distance.ShareBelow` |
| Distance.Accepts | scripts/0_extract_codas.py:76 | definition: the `only_equal` rule, a count of exactly one in strict mode and at most one otherwise; stated by `Distance.StrictModeAcceptsOnlyFullWindow` and `Distance.StrictImpliesLenient` |
| Distance.Abs | scripts/0_extract_codas.py:75 | `np.abs` of one entry is never negative and is `x` or `-x` |
| Distance.Scaled | scripts/0_extract_codas.py:74 | definition: every entry divided by the sum; its values after `np.cumsum` are stated by `Distance.Profile` |
| Distance.CountNearOne | scripts/0_extract_codas.py:75 | the count of entries within 1e-10 of 1.0 is at most the number of entries |
| Distance.L1 | scripts/0_extract_codas.py:77-79 | the Manhattan distance is never negative |
| Distance.Match | scripts/0_extract_codas.py:72-79 | definition: one pass of the loop, the distance recorded for one template or none; its properties are stated by `Distance.DistancesExactlyAccepted` and `Distance.StrictModeAcceptsOnlyFullWindow` |
| Distance.Normalize | scripts/0_extract_codas.py:74 | `sequence_ / sequence_.sum()` keeps the length; its values are stated by `Distance.Profile` |
| Distance.Distances | scripts/0_extract_codas.py:69-81 | no entry has label -1; every distance is at least 0; every key is a label of the library; there are at most as many entries as templates |
| Distance.CodaDistances | scripts/0_extract_codas.py:69-81 | the loop over the templates builds exactly the dictionary `Distances` describes |
| Distance.DistancesSnoc | scripts/0_extract_codas.py:71-79 | one more template adds its entry, when it yields one, after the entries of the templates before it (dictionary insertion order) |
| Distance.DistancesExactlyAccepted | scripts/0_extract_codas.py:72-79 | an entry is in the dictionary if and only if some template with that label passes the label, length and count tests and lies at that distance |
| Distance.OnlyAcceptedEntries | scripts/0_extract_codas.py:72-79 | every entry of the dictionary comes from a template that passes the acceptance tests |
| Distance.AllAcceptedEntries | scripts/0_extract_codas.py:72-79 | every template that passes the acceptance tests gives an entry of the dictionary |
| Distance.DistancesFitWindow | scripts/0_extract_codas.py:73 | a label in the dictionary is never longer than the window |
| Distance.StrictImpliesLenient | scripts/0_extract_codas.py:76 | every entry found in strict mode is found in lenient mode, at the same distance |
| Distance.NearOneIffTailNegligible | scripts/0_extract_codas.py:74-75 | entry k of the running sum is within 1e-10 of 1.0 exactly when the intervals after k add up to less than 1e-10 of the total |
| Distance.ShareBelow | scripts/0_extract_codas.py:75 | a share `head / total` is within 1e-10 of 1.0 exactly when the rest is below 1e-10 of the total |
| Distance.NoneNearOne | scripts/0_extract_codas.py:75 | with no entry near 1.0, the count is 0 |
| Distance.SumAtLeastLast | scripts/0_extract_codas.py:74 | for positive intervals, every suffix sum is at least the last interval |
| Distance.OnlyLastNearOne | scripts/0_extract_codas.py:74-75 | when no interval is negligible, only the last running-sum entry is near 1.0 |
| Distance.CrossingsOfProfile | scripts/0_extract_codas.py:74-76 | when no interval is negligible, the cut running sum holds exactly one entry near 1.0 if it spans the whole window, and none otherwise |
| Distance.CutNearOne | scripts/0_extract_codas.py:74-75 | when no interval is negligible, entry k of the running sum cut to n entries is near 1.0 exactly when k is the window's last position |
| Distance.CountWhenOnlyAt | scripts/0_extract_codas.py:75 | a count with only position m near 1.0 is 1 when m is the last position, and 0 when m lies beyond the end |
| Distance.StrictModeAcceptsOnlyFullWindow | scripts/0_extract_codas.py:73-76 | when no interval is negligible, strict mode accepts a template exactly when it is as long as the window; lenient mode accepts exactly when it fits |
| Candidates.DistanceOf | scripts/0_extract_codas.py:95 | definition: the sort key `lambda x: x[1]` of lines 86 and 95; used by `Candidates.Ranking` and `Candidates.GetCodaFirstOfTies` |
| Candidates.WithinThreshold | scripts/0_extract_codas.py:96-98 | the filtered list is no longer than its input |
| Candidates.Ranking | scripts/0_extract_codas.py:95 | definition: the dictionary's items sorted by distance; its properties are stated by `Sorting.SortBy`, `Sorting.SortByStable` and `Candidates.RankingHead` |
| Candidates.CandidatesSortedFiltered | scripts/0_extract_codas.py:93-99 | the candidates are exactly the entries with distance at most the threshold; they are sorted by distance; they form a prefix of the full ranking, and every entry after them is beyond the threshold |
| Candidates.GetCoda | scripts/0_extract_codas.py:84-90 | `None` exactly when the dictionary is empty; otherwise an entry of the dictionary whose distance is no larger than any other's |
| Candidates.RankingHead | scripts/0_extract_codas.py:86-88 | the head of the ranking exists exactly when the input is non-empty, is one of the entries, and has the least distance |
| Candidates.RankedFilter | scripts/0_extract_codas.py:95-98 | sorting and then filtering any list keeps exactly the entries within the threshold, sorted, as a prefix of the ranking |
| Candidates.WithinThresholdMembers | scripts/0_extract_codas.py:96-98 | the comprehension keeps exactly the entries within the threshold |
| Candidates.NoneWithin | scripts/0_extract_codas.py:96-98 | when every entry is beyond the threshold, nothing is kept |
| Candidates.SortedFilterIsPrefix | scripts/0_extract_codas.py:95-98 | filtering a sorted list keeps a prefix of it, and everything after that prefix is beyond the threshold |
| Candidates.RaisingThresholdKeepsCandidates | scripts/0_extract_codas.py:93-99 | raising the threshold never removes a candidate: the candidates under the lower threshold are a prefix of those under the higher one |
| Candidates.FilterMonotone | scripts/0_extract_codas.py:96-98 | for a sorted list, the entries kept under a lower threshold are a prefix of those kept under a higher one |
| Candidates.GetCodaHeadsCandidates | scripts/0_extract_codas.py:84-99 | `get_coda` is the first candidate whenever there is one, and there is a candidate exactly when `get_coda`'s distance is within the threshold |
| Candidates.GetCodaFirstOfTies | scripts/0_extract_codas.py:84-88 | among entries of least distance, `get_coda` returns the first one in library order |
| Candidates.RankingHeadFirstOfTies | scripts/0_extract_codas.py:86-88 | the head of a stable ranking is the first entry of least distance |
| SegTree.WithChild | scripts/0_extract_codas.py:19-21 | definition: `addChild` on values, one child appended; stated by `SegTree.TreeNode.AddChild` and `Shape.SoundWithChild` |
| SegTree.NoiseSegment | scripts/0_extract_codas.py:176 | definition: the noise payload `(100, 1.0, start, start + 1)` of lines 136 and 176; stated by `Shape.NoiseFallbackConditions` and `Shape.ExpandOneSound` |
| SegTree.IsNoise | scripts/0_extract_codas.py:170 | definition: the test `child.val[0] == 100` of line 170 (`BestPath.Cost` makes the same test at line 47); used by `SegTree.HasNoiseChild` and `Shape.OneNoise` |
| SegTree.TreeNode.constructor | scripts/0_extract_codas.py:12-17 | `TreeNode(val)`: a fresh node with the given payload and no children, whose subtree value is that one node |
| SegTree.HasNoiseChild | scripts/0_extract_codas.py:170 | definition: some child carries label 100; `SegTree.TreeNode.HasNoiseChildNode` ties it to the objects |
| SegTree.TreeNode.AddChild | scripts/0_extract_codas.py:19-21 | appends exactly one node after the existing children, in order; the node is never the parent itself; the subtree value gains exactly that child |
| SegTree.TreeNode.HasNoiseChildNode | scripts/0_extract_codas.py:170 | the node has a label-100 child exactly when its subtree value does |
| Builder.SearchParams | scripts/0_extract_codas.py:153-155 | the ranking used by the search is `get_candidates_sorted_filtered` with the search's library, threshold and mode, on every window of positive intervals |
| Builder.SearchParamsRankOk | scripts/0_extract_codas.py:73 | with that ranking, every candidate names a template of the library other than -1, no longer than the window, within the threshold |
| Builder.Take | scripts/0_extract_codas.py:154-155 | `s[:n]` has min(n, len(s)) elements for n ≥ 0 and is a prefix of `s` |
| Builder.Drop | scripts/0_extract_codas.py:172-178 | definition: `sequence[n:]` for the shifted window and the shifted input of the noise fallback; their use is covered by `Builder.ShiftedCandidates` and `Shape.NoiseStepSound` |
| Builder.Min | scripts/0_extract_codas.py:115 | `min` of two integers: no larger than either, and equal to one of them |
| Builder.WindowCandidates | scripts/0_extract_codas.py:153-155 | at most `limit` candidates are kept for the window `sequence[:eval]`, and each fits in that window |
| Builder.ShiftedCandidates | scripts/0_extract_codas.py:171-173 | every candidate for the shifted window `sequence[1:eval+1]` fits in it |
| Builder.CodaTree | scripts/0_extract_codas.py:142-201 | definition of the tree `get_coda_tree` builds, as a value; its properties are stated by `Shape.CodaTreeSound`, and `Builder.GetCodaTree` is proved to build it |
| Builder.NoiseStep | scripts/0_extract_codas.py:170-187 | definition of the noise fallback, as a value; stated by `Shape.NoiseFallbackConditions` and `Shape.NoiseStepSound`, built by `Builder.NoiseFallback` |
| Builder.Expand | scripts/0_extract_codas.py:102-139 | definition of `expand_tree`, as a value; stated by `Shape.ExpandSound` and `Shape.ExpandKeepsSegment`, built by `Builder.ExpandTree` |
| Builder.ExpandOne | scripts/0_extract_codas.py:115-137 | definition of one pass of its loop, as a value; stated by `Shape.ExpandOneSound` and `Shape.TwiceSound`, built by `Builder.ExpandCandidate` |
| Builder.GetCodaTree | scripts/0_extract_codas.py:142-201 | growing the tree in place gives exactly the value `CodaTree`: expand when the window yields candidates; otherwise run the noise fallback and, only then, retry with a window one smaller; the nodes added are fresh and the tree stays acyclic |
| Builder.NoiseFallback | scripts/0_extract_codas.py:170-187 | in place, exactly `NoiseStep`: when the node has no noise child and the shifted window has candidates, a fresh noise node expanded on `sequence[1:]` is appended |
| Builder.ExpandTree | scripts/0_extract_codas.py:102-139 | the loop over the candidates appends, in candidate order, exactly what `Expand` describes |
| Builder.ExpandCandidate | scripts/0_extract_codas.py:115-137 | one pass: a child spans min(remaining, template length) intervals; it is grown and added twice when more than one interval remains, given a noise leaf when exactly one remains, and added once otherwise |
| Shape.CodaTreeSound | scripts/0_extract_codas.py:142-201 | the search only appends children; every child starts where its parent ends and lies inside the input; it is a coda of exactly its template's length, between 1 and `bound` intervals (the top-level window), carrying exactly those intervals, with a library label other than -1 and a distance within the threshold, or a one-click noise node; with no template labelled 100, no node gets two noise children |
| Shape.NoiseStepSound | scripts/0_extract_codas.py:170-187 | the noise fallback keeps those properties |
| Shape.ExpandSound | scripts/0_extract_codas.py:102-139 | `expand_tree` keeps those properties |
| Shape.ExpandOneSound | scripts/0_extract_codas.py:115-137 | one candidate keeps those properties, and `min(len(sequence), coda_lengths[c])` never cuts the template; the label-100 leaf sits at [end, end+1) |
| Shape.TwiceSound | scripts/0_extract_codas.py:134-137 | adding the same grown child twice keeps those properties |
| Shape.OneNoiseWithChild | scripts/0_extract_codas.py:170 | appending a child keeps "at most one noise child per node" when the child is not noise or the node has none yet |
| Shape.SoundWithChild | scripts/0_extract_codas.py:19-21 | appending a well-placed sound child keeps the tree sound and only appends |
| Shape.ExtendsTrans | scripts/0_extract_codas.py:19-21 | appending children twice is appending children |
| Shape.ExpandKeepsSegment | scripts/0_extract_codas.py:139 | `expand_tree` returns the node it was given, with its payload unchanged |
| Shape.NoiseFallbackConditions | scripts/0_extract_codas.py:170-187 | a noise child is added exactly when the node has none and the shifted window has candidates; it is `(100, 1.0, start, start+1)`, after the existing children; otherwise the node is unchanged |
| BestPath.GetBestPath | scripts/0_extract_codas.py:45-66 | definition of `get_best_path(first_call=True)`; its properties are stated by `BestPath.GetBestPathIsCheapest` and `BestPath.DuplicateChildKeepsBestScore` |
| BestPath.StepOf | scripts/0_extract_codas.py:46 | definition: the `(label, start, end)` tuple of a node; `Segmentation.StepsOfIndex` ties it to each step of a path, and `Segmentation.SegmentationWellFormed` states what the steps satisfy |
| BestPath.Cost | scripts/0_extract_codas.py:47-50 | definition: `extra` for a label-100 node, its stored distance otherwise; stated by `BestPath.GetBestPathIsCheapest` through `BranchCost` |
| BestPath.ScoreOf | scripts/0_extract_codas.py:62 | definition: the sort key `lambda x: x[1]` of line 62; used by `BestPath.GetBestPathFirstOfTies` |
| BestPath.Paths | scripts/0_extract_codas.py:45-66 | every node yields at least one scored path |
| BestPath.KidsPaths | scripts/0_extract_codas.py:56-60 | a node with children yields at least one scored path from them |
| BestPath.StepsOf | scripts/0_extract_codas.py:46 | one `(label, start, end)` step per node of a branch |
| BestPath.KidsPathsMembers | scripts/0_extract_codas.py:56-60 | the flattened list holds exactly the entries of the children's lists |
| BestPath.InnerPaths | scripts/0_extract_codas.py:62 | sorting keeps exactly the children's entries |
| BestPath.BranchesArePaths | scripts/0_extract_codas.py:45-66 | every root-to-leaf branch appears, with its path and summed score, among the scored paths |
| BestPath.PathsAreBranches | scripts/0_extract_codas.py:45-66 | every scored path is the path and score of some root-to-leaf branch |
| BestPath.KidPathsAreBranches | scripts/0_extract_codas.py:56-60 | the same for the entries a child contributes |
| BestPath.LiftBranch | scripts/0_extract_codas.py:56-57 | a child's branch, with the node in front, is a branch of the node |
| BestPath.AlongCons | scripts/0_extract_codas.py:46-50 | a branch's scored path extends the path and score passed down |
| BestPath.AlongLeaf | scripts/0_extract_codas.py:46-54 | a leaf adds its own step and cost |
| BestPath.BranchCons | scripts/0_extract_codas.py:55-57 | a branch of an inner node is the node followed by a branch of one of its children |
| BestPath.GetBestPathIsCheapest | scripts/0_extract_codas.py:45-66 | the result is the path and score of some branch (root step dropped below an inner root), and no branch scores less |
| BestPath.GetBestPathFirstOfTies | scripts/0_extract_codas.py:61-64 | below an inner root, the result, with the root's step in front, is the first entry of least score in the flattened list of the children's lists, taken in child order |
| BestPath.BestPathRealised | scripts/0_extract_codas.py:45-66 | the result is realised by a root-to-leaf branch |
| BestPath.NoBranchCheaper | scripts/0_extract_codas.py:45-66 | no branch scores less than the result |
| BestPath.BestScoreDependsOnKidSet | scripts/0_extract_codas.py:55-64 | the best score depends only on which children a node has, not on their order or repetitions |
| BestPath.BestScoreNoWorse | scripts/0_extract_codas.py:55-64 | a node with at least the children of another scores no worse |
| BestPath.SwapRoot | scripts/0_extract_codas.py:55-57 | a branch stays a branch of the same cost under a root with the same payload and more children |
| BestPath.DuplicateChildKeepsBestScore | scripts/0_extract_codas.py:134-137 | adding the same child twice gives the same best score as adding it once |
| Segmentation.SearchTree | scripts/0_extract_codas.py:223-232 | definition of the tree grown from the root `(None, 0.0, 0, 0)` with window 9 at offset 0; its shape is stated by `Shape.CodaTreeSound` |
| Segmentation.BestSegmentation | scripts/0_extract_codas.py:233 | definition: the best path of that tree; stated by `Segmentation.SegmentationWellFormed` |
| Segmentation.SegmentClickTrain | scripts/0_extract_codas.py:223-232 | growing a fresh root `(None, 0.0, 0, 0)` with window 9 at offset 0 gives exactly the tree `SearchTree` |
| Segmentation.SegmentationWellFormed | scripts/0_extract_codas.py:236-240 | the best path's steps are contiguous from 0; each ends within the sequence (`end <= len(sequence)`); none spans more than 9 intervals (`9 - (end - start) >= 0`); each is labelled and non-empty, unless nothing was found and the path is the root's own step |
| Segmentation.BestPathWellFormed | scripts/0_extract_codas.py:236-240 | the same for any sound tree grown from the root and any window |
| Segmentation.BranchTiles | scripts/0_extract_codas.py:236-240 | below the root, the steps of any branch of a sound tree tile the input from 0 |
| Segmentation.BranchSound | scripts/0_extract_codas.py:236-240 | every node of a branch of a sound tree continues its parent |
| Segmentation.SoundAlong | scripts/0_extract_codas.py:236-240 | every node of a branch of a sound tree roots a sound subtree |
| Segmentation.StepsOfIndex | scripts/0_extract_codas.py:46 | step i of a branch is the step of node i |

## Left out

- The `__main__` block's I/O is not modelled. This covers reading the CSV
  and the JSON template file, building the output rows, the time offsets
  and the padding. `Segmentation` covers the search for one click train
  and the two assertions the report loop makes.
- The random 16-character node names are not modelled. They are replaced
  by object identity and the acyclic footprint `Repr`. `AddChild` requires
  that the parent is not in the child's subtree, which is stronger than
  the source's name check.
- The pretty-printers `str`, `__str__`, `__repr__` and `length` are not
  modelled. They only format text.
- Numbers are exact reals, not IEEE doubles. `np.sum` rounding and the
  `nan` produced by a window whose sum is 0 are not modelled. The caller
  keeps only positive intervals (line 222), so `Positive` is required
  wherever a window is normalised.
- Builder.SearchParams: on a window containing a non-positive interval,
  the model's ranking is empty. The source's ranking need not be: a window
  such as `[1.0, 0.0]` has a positive sum, and `coda_distances` (line 74)
  ranks it as usual. The filter of line 222 keeps every interval positive,
  so such windows never reach the search.
- The templates dictionary is a sequence in insertion order with distinct
  labels, and `coda_lengths` is derived from it. The caller always builds
  it as `{k: len(v)}`. JSON string keys are modelled as integers.
- Builder.GetCodaTree, Builder.NoiseFallback, Builder.ExpandTree: these
  change the tree in place and do not return it. The source returns the
  same object it was given, and every call site binds the returned object,
  which is its argument: `child = get_coda_tree(tree=child, ...)` on line
  123, `tree = expand_tree(tree=tree, ...)` on line 157, and
  `child1 = expand_tree(tree=TreeNode(...), ...)` on line 175, where the
  model names the fresh node `child1` before expanding it.
- Root and noise payloads keep an empty interval list. The source stores a
  four-tuple for them.
- The ranking reaches the builder through the `rank` field of
  `Builder.Params`, a function value. `Builder.SearchParams` fixes it to
  `get_candidates_sorted_filtered`, and the builder relies only on
  `Builder.RankOk`.
- Distance.LibraryOk requires every template to be non-empty. This is an
  assumption about the template file, which is not part of this model. In
  strict mode an empty template would never match (its count is 0). In
  lenient mode it would first reach `manhattan_distances` (line 77) with
  arrays of no features; only if that call returned would a child of
  width 0 follow.
