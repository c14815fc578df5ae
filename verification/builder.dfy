/**
 * Tree building of scripts/0_extract_codas.py: `get_coda_tree` ranks the
 * candidates for a window of the remaining intervals and hands them to
 * `expand_tree`, which grows one child per candidate and recurses on what
 * the child leaves over; when a window yields nothing, a one-click noise
 * node is tried and the window shrinks by one.
 *
 * `CodaTree`, `Expand` and `ExpandOne` give the tree the source builds, as
 * a value; `GetCodaTree` and `ExpandTree` build it in place on `TreeNode`
 * objects, as the source does, and are proved to build exactly that value.
 */
module Builder {
  import opened Wrappers
  import opened Distance
  import opened Candidates
  import opened SegTree

  /**
   * The arguments that stay fixed through one search. `rank` is the ranking
   * `get_candidates_sorted_filtered(window, means, threshold, only_equal)`
   * as a function of the window (see `SearchParams`); the search itself
   * relies only on `RankOk`.
   */
  datatype Params = Params(lib: seq<Template>, limit: int, threshold: real, onlyEqual: bool,
                           rank: seq<real> -> seq<Candidate>)

  /** The parameters of a search over `lib`, ranking with `get_candidates_sorted_filtered`. */
  function SearchParams(lib: seq<Template>, limit: int, threshold: real, onlyEqual: bool): (p: Params)
    ensures p.lib == lib && p.limit == limit && p.threshold == threshold && p.onlyEqual == onlyEqual
    ensures forall w :: Positive(w) ==> p.rank(w) == CandidatesSortedFiltered(w, lib, threshold, onlyEqual)
  {
    Params(lib, limit, threshold, onlyEqual,
           w => if Positive(w) then CandidatesSortedFiltered(w, lib, threshold, onlyEqual) else [])
  }

  /**
   * A ranked entry for a window of `n` intervals names a template of the
   * library other than -1, whose length fits in the window, at a distance
   * within the threshold.
   */
  predicate Fits(p: Params, n: int, c: Candidate) {
    && c.coda in Labels(p.lib)
    && c.coda != Excluded
    && LengthOf(p.lib, c.coda) <= n
    && 0.0 <= c.distance <= p.threshold
  }

  /** What the search needs of the library and the ranking. */
  ghost predicate RankOk(p: Params) {
    && LibraryOk(p.lib)
    && forall w, c :: c in p.rank(w) ==> Fits(p, |w|, c)
  }

  /** The ranking of `SearchParams` meets `RankOk` on a well-formed library. */
  lemma SearchParamsRankOk(lib: seq<Template>, limit: int, threshold: real, onlyEqual: bool)
    requires LibraryOk(lib)
    ensures RankOk(SearchParams(lib, limit, threshold, onlyEqual))
  {
    var p := SearchParams(lib, limit, threshold, onlyEqual);
    forall w, c | c in p.rank(w) ensures Fits(p, |w|, c) {
      if Positive(w) {
        DistancesFitWindow(w, lib, onlyEqual, c);
      }
    }
  }

  /** Python's `s[:n]`, where a negative `n` counts from the end. */
  function Take<T>(s: seq<T>, n: int): (r: seq<T>)
    ensures |r| <= |s| && r == s[..|r|]
    ensures n >= 0 ==> |r| == if n <= |s| then n else |s|
  {
    if n >= 0 then s[..if n <= |s| then n else |s|]
    else s[..if |s| + n >= 0 then |s| + n else 0]
  }

  /** Python's `s[n:]` for `n >= 0`. */
  function Drop<T>(s: seq<T>, n: nat): seq<T> {
    s[if n <= |s| then n else |s|..]
  }

  /** Python's `min` of two integers. */
  function Min(a: int, b: int): (r: int)
    ensures r <= a && r <= b && (r == a || r == b)
  {
    if a <= b then a else b
  }

  /** Lines 153-155: the candidates for the window `sequence[:eval]`, at most `limit` of them. */
  function WindowCandidates(s: seq<real>, eval: nat, p: Params): (r: seq<Candidate>)
    requires RankOk(p)
    ensures p.limit >= 0 ==> |r| <= p.limit
    ensures forall c :: c in r ==> Fits(p, Min(eval, |s|), c)
  {
    var ranked := p.rank(Take(s, eval));
    var r := Take(ranked, p.limit);
    assert forall c :: c in r ==> c in ranked;
    r
  }

  /** Lines 171-173: the candidates for the shifted window `sequence[1:eval + 1]`, not limited. */
  function ShiftedCandidates(s: seq<real>, eval: nat, p: Params): (r: seq<Candidate>)
    requires RankOk(p)
    ensures forall c :: c in r ==> Fits(p, Min(eval, |s| - 1), c)
  {
    p.rank(Take(Drop(s, 1), eval))
  }

  /** `get_coda_tree(tree, sequence, eval, start, ...)`, on values. */
  function CodaTree(t: Tree, s: seq<real>, eval: nat, start: int, p: Params): Tree
    requires RankOk(p)
    decreases |s|, 2, eval
  {
    var cands := WindowCandidates(s, eval, p);
    if |cands| > 0 then Expand(t, cands, s, eval, start, p)
    else
      var t1 := NoiseStep(t, s, eval, start, p);
      if eval > 1 then CodaTree(t1, s, eval - 1, start, p) else t1
  }

  /**
   * Lines 170-187, on values: without a noise child yet, and when the
   * shifted window has candidates, a one-click noise node at `start` whose
   * subtree continues at `start + 1`.
   */
  function NoiseStep(t: Tree, s: seq<real>, eval: nat, start: int, p: Params): Tree
    requires RankOk(p)
    decreases |s|, 1, 0
  {
    if HasNoiseChild(t) then t
    else
      var cands1 := ShiftedCandidates(s, eval, p);
      if |cands1| > 0 then
        WithChild(t, Expand(Node(NoiseSegment(start), []), cands1, Drop(s, 1), eval, start + 1, p))
      else t
  }

  /** `expand_tree(tree, candidates, ...)`, on values: one `ExpandOne` per candidate, in order. */
  function Expand(t: Tree, cands: seq<Candidate>, s: seq<real>, eval: nat, start: int, p: Params): Tree
    requires RankOk(p)
    requires forall c :: c in cands ==> c.coda in Labels(p.lib)
    decreases |s|, 0, |cands|
  {
    if cands == [] then t
    else
      var last := cands[|cands| - 1];
      ExpandOne(Expand(t, cands[..|cands| - 1], s, eval, start, p), last, s, eval, start, p)
  }

  /** One pass of the loop of lines 114-137. */
  function ExpandOne(t: Tree, c: Candidate, s: seq<real>, eval: nat, start: int, p: Params): Tree
    requires RankOk(p) && c.coda in Labels(p.lib)
    decreases |s|, 0, 0
  {
    var length := Min(|s|, LengthOf(p.lib, c.coda));
    var end := start + length;
    var remainder := s[length..];
    var child := Node(Segment(Some(c.coda), c.distance, start, end, s[..length]), []);
    if |remainder| > 1 then
      var grown := CodaTree(child, remainder, eval, end, p);
      WithChild(WithChild(t, grown), grown)
    else if |remainder| == 1 then
      WithChild(t, WithChild(child, Node(NoiseSegment(end), [])))
    else
      WithChild(t, child)
  }

  /** `get_coda_tree`, growing `tree` in place. */
  method GetCodaTree(tree: TreeNode, s: seq<real>, eval: nat, start: int, p: Params)
    requires RankOk(p)
    requires tree.Valid()
    modifies tree
    ensures tree.Valid() && fresh(tree.Repr - old(tree.Repr))
    ensures tree.model == CodaTree(old(tree.model), s, eval, start, p)
    decreases |s|, 2, eval
  {
    var candidates := WindowCandidates(s, eval, p);
    if |candidates| > 0 {
      ExpandTree(tree, candidates, s, eval, start, p);
    } else {
      NoiseFallback(tree, s, eval, start, p);
      if eval > 1 {
        // The source discards this call's result: it is `tree` itself.
        GetCodaTree(tree, s, eval - 1, start, p);
      }
    }
  }

  /** Lines 170-187 of `get_coda_tree`, in place. */
  method NoiseFallback(tree: TreeNode, s: seq<real>, eval: nat, start: int, p: Params)
    requires RankOk(p)
    requires tree.Valid()
    modifies tree
    ensures tree.Valid() && fresh(tree.Repr - old(tree.Repr))
    ensures tree.model == NoiseStep(old(tree.model), s, eval, start, p)
    decreases |s|, 1, 0
  {
    if !tree.HasNoiseChildNode() {
      var candidates1 := p.rank(Take(Drop(s, 1), eval));
      if |candidates1| > 0 {
        var child1 := new TreeNode(NoiseSegment(start));
        ExpandTree(child1, candidates1, Drop(s, 1), eval, start + 1, p);
        tree.AddChild(child1);
      }
    }
  }

  /** `expand_tree`, appending to `tree` in place. */
  method ExpandTree(tree: TreeNode, candidates: seq<Candidate>, s: seq<real>, eval: nat, start: int, p: Params)
    requires RankOk(p)
    requires forall c :: c in candidates ==> c.coda in Labels(p.lib)
    requires tree.Valid()
    modifies tree
    ensures tree.Valid() && fresh(tree.Repr - old(tree.Repr))
    ensures tree.model == Expand(old(tree.model), candidates, s, eval, start, p)
    decreases |s|, 0, |candidates|
  {
    var i := 0;
    while i < |candidates|
      invariant 0 <= i <= |candidates|
      invariant tree.Valid() && fresh(tree.Repr - old(tree.Repr))
      invariant tree.model == Expand(old(tree.model), candidates[..i], s, eval, start, p)
    {
      assert candidates[..i + 1][..i] == candidates[..i];
      ExpandCandidate(tree, candidates[i], s, eval, start, p);
      i := i + 1;
    }
    assert candidates[..|candidates|] == candidates;
  }

  /** One pass of the loop of `expand_tree` (lines 115-137), in place. */
  method ExpandCandidate(tree: TreeNode, candidate: Candidate, s: seq<real>, eval: nat, start: int, p: Params)
    requires RankOk(p) && candidate.coda in Labels(p.lib)
    requires tree.Valid()
    modifies tree
    ensures tree.Valid() && fresh(tree.Repr - old(tree.Repr))
    ensures tree.model == ExpandOne(old(tree.model), candidate, s, eval, start, p)
    decreases |s|, 0, 0
  {
    var length := Min(|s|, LengthOf(p.lib, candidate.coda));
    var end := start + length;
    var remainder := s[length..];
    var child := new TreeNode(Segment(Some(candidate.coda), candidate.distance, start, end, s[..length]));
    if |remainder| > 1 {
      GetCodaTree(child, remainder, eval, end, p);
      tree.AddChild(child);
    } else if |remainder| == 1 {
      var leaf := new TreeNode(NoiseSegment(end));
      child.AddChild(leaf);
    }
    tree.AddChild(child);
  }
}
