/**
 * One click train through the whole search of scripts/0_extract_codas.py
 * (lines 223-233): the tree is grown from the root `(None, 0.0, 0, 0)` with
 * the window 9 at offset 0, and its best path is the segmentation.
 */
module Segmentation {
  import opened Wrappers
  import opened Distance
  import opened SegTree
  import opened Builder
  import opened Shape
  import opened BestPath

  /** The first `sequence_eval_index`: no coda spans more than nine intervals (ten clicks). */
  const Window: nat := 9

  /** The root payload `(None, 0.0, 0, 0)`. */
  const RootSegment: Segment := Segment(None, 0.0, 0, 0, [])

  /** `get_coda_tree(TreeNode((None, 0.0, 0, 0)), sequence, 9, 0, ...)`, on values. */
  function SearchTree(s: seq<real>, lib: seq<Template>, limit: int, threshold: real, onlyEqual: bool): Tree
    requires LibraryOk(lib) && Positive(s)
  {
    SearchParamsRankOk(lib, limit, threshold, onlyEqual);
    CodaTree(Node(RootSegment, []), s, Window, 0, SearchParams(lib, limit, threshold, onlyEqual))
  }

  /** `tree.get_best_path(extra_value=extra)` on that tree. */
  function BestSegmentation(s: seq<real>, lib: seq<Template>, limit: int, threshold: real, onlyEqual: bool, extra: real): Scored
    requires LibraryOk(lib) && Positive(s)
  {
    GetBestPath(SearchTree(s, lib, limit, threshold, onlyEqual), extra)
  }

  /**
   * Lines 223-232 for one click train: a fresh root grown in place, whose
   * subtree is the tree `SearchTree` gives; `BestSegmentation` is its best path.
   */
  method SegmentClickTrain(s: seq<real>, lib: seq<Template>, limit: int, threshold: real, onlyEqual: bool)
    returns (root: TreeNode)
    requires LibraryOk(lib) && Positive(s)
    ensures root.Valid() && fresh(root.Repr)
    ensures root.model == SearchTree(s, lib, limit, threshold, onlyEqual)
  {
    var p := SearchParams(lib, limit, threshold, onlyEqual);
    SearchParamsRankOk(lib, limit, threshold, onlyEqual);
    root := new TreeNode(RootSegment);
    GetCodaTree(root, s, Window, 0, p);
  }

  /**
   * The steps tile `[0, end)` of an input of `n` intervals from offset 0,
   * each ending inside the input and spanning at most `bound` intervals.
   */
  predicate Tiles(path: seq<Step>, n: int, bound: int) {
    && |path| >= 1
    && path[0].start == 0
    && (forall i :: 0 <= i < |path| - 1 ==> path[i + 1].start == path[i].end)
    && (forall i :: 0 <= i < |path| ==> path[i].end <= n && bound - (path[i].end - path[i].start) >= 0)
  }

  /** Every step is a labelled segment of at least one interval. */
  predicate Labelled(path: seq<Step>) {
    forall i :: 0 <= i < |path| ==> path[i].coda.Some? && 1 <= path[i].end - path[i].start
  }

  /**
   * What the report loop relies on (lines 237-240): the steps of the best
   * path are contiguous from offset 0, none ends past the input, and none
   * spans more than nine intervals; each is a coda or a one-click noise
   * step, unless nothing was found and the path is the root's own step.
   */
  lemma SegmentationWellFormed(s: seq<real>, lib: seq<Template>, limit: int, threshold: real, onlyEqual: bool, extra: real)
    requires LibraryOk(lib) && Positive(s)
    ensures var path := BestSegmentation(s, lib, limit, threshold, onlyEqual, extra).path;
            && Tiles(path, |s|, Window)
            && (path == [StepOf(RootSegment)] || Labelled(path))
  {
    var p := SearchParams(lib, limit, threshold, onlyEqual);
    SearchParamsRankOk(lib, limit, threshold, onlyEqual);
    CodaTreeSound(Node(RootSegment, []), s, Window, 0, p, s, Window);
    BestPathWellFormed(SearchTree(s, lib, limit, threshold, onlyEqual), s, Window, p, extra);
  }

  /** The same for any sound tree grown from the root and any window `bound`. */
  lemma BestPathWellFormed(t: Tree, whole: seq<real>, bound: nat, p: Params, extra: real)
    requires Sound(t, whole, bound, p) && t.seg == RootSegment && bound >= 1
    ensures var path := GetBestPath(t, extra).path;
            && Tiles(path, |whole|, bound)
            && (path == [StepOf(RootSegment)] || Labelled(path))
  {
    BestPathRealised(t, extra);
    var b: seq<Tree> :| Realises(t, b, GetBestPath(t, extra), extra);
    var path := GetBestPath(t, extra).path;
    if t.kids == [] {
      assert b == [t];
      assert path == StepsOf(b) == [StepOf(RootSegment)];
      assert Tiles(path, |whole|, bound);
    } else {
      assert path == StepsOf(b)[1..];
      BranchTiles(t, b, whole, bound, p);
    }
  }

  /** Below a root that ends at 0, the steps of a branch without the root tile the input. */
  lemma BranchTiles(t: Tree, b: seq<Tree>, whole: seq<real>, bound: nat, p: Params)
    requires Sound(t, whole, bound, p) && IsBranch(t, b) && t.kids != [] && t.seg.end == 0 && bound >= 1
    ensures Tiles(StepsOf(b)[1..], |whole|, bound) && Labelled(StepsOf(b)[1..])
  {
    var path := StepsOf(b)[1..];
    StepsOfIndex(b);
    BranchSound(t, b, whole, bound, p);
    assert |b| >= 2;
    assert forall i :: 0 <= i < |path| ==> path[i] == StepOf(b[i + 1].seg);
    assert KidOk(b[0].seg, b[1].seg, whole, bound, p);
    forall i | 0 <= i < |path| - 1 ensures path[i + 1].start == path[i].end {
      assert KidOk(b[i + 1].seg, b[i + 2].seg, whole, bound, p);
    }
    forall i | 0 <= i < |path|
      ensures path[i].end <= |whole| && bound - (path[i].end - path[i].start) >= 0
      ensures path[i].coda.Some? && 1 <= path[i].end - path[i].start
    {
      assert KidOk(b[i].seg, b[i + 1].seg, whole, bound, p);
    }
  }

  lemma {:induction false} StepsOfIndex(b: seq<Tree>)
    ensures forall i :: 0 <= i < |b| ==> StepsOf(b)[i] == StepOf(b[i].seg)
  {
    if b != [] {
      StepsOfIndex(b[1..]);
      assert StepsOf(b) == [StepOf(b[0].seg)] + StepsOf(b[1..]);
    }
  }

  /** Along a branch of a sound tree, each node continues its parent. */
  lemma BranchSound(t: Tree, b: seq<Tree>, whole: seq<real>, bound: nat, p: Params)
    requires Sound(t, whole, bound, p) && IsBranch(t, b)
    ensures forall i :: 0 <= i < |b| - 1 ==> KidOk(b[i].seg, b[i + 1].seg, whole, bound, p)
  {
    forall i | 0 <= i < |b| - 1 ensures KidOk(b[i].seg, b[i + 1].seg, whole, bound, p) {
      SoundAlong(t, b, i, whole, bound, p);
      assert b[i + 1] in b[i].kids;
      var j :| 0 <= j < |b[i].kids| && b[i].kids[j] == b[i + 1];
    }
  }

  lemma {:induction false} SoundAlong(t: Tree, b: seq<Tree>, i: nat, whole: seq<real>, bound: nat, p: Params)
    requires Sound(t, whole, bound, p) && IsBranch(t, b) && i < |b|
    ensures Sound(b[i], whole, bound, p)
  {
    if i > 0 {
      SoundAlong(t, b, i - 1, whole, bound, p);
      assert b[i] in b[i - 1].kids;
      var j :| 0 <= j < |b[i - 1].kids| && b[i - 1].kids[j] == b[i];
    }
  }
}
