/**
 * `TreeNode.get_best_path` of scripts/0_extract_codas.py: every root-to-leaf
 * branch of the search tree is scored by adding, node by node, the stored
 * distance (or `extra` for a noise node), and the cheapest branch is
 * returned as a list of `(label, start, end)` steps without the root.
 */
module BestPath {
  import opened Wrappers
  import opened Sorting
  import opened SegTree

  /** One `(label, start, end)` entry of a path. */
  datatype Step = Step(coda: Option<int>, start: int, end: int)

  /** A path with its score: one element of the lists `get_best_path` builds. */
  datatype Scored = Scored(path: seq<Step>, score: real)

  function StepOf(seg: Segment): Step {
    Step(seg.coda, seg.start, seg.end)
  }

  /** The score a node adds: `extra` for a noise node, its stored distance otherwise. */
  function Cost(seg: Segment, extra: real): real {
    if seg.coda == Some(Noise) then extra else seg.score
  }

  /** The sort key `lambda x: x[1]`. */
  function ScoreOf(x: Scored): real {
    x.score
  }

  /**
   * `get_best_path(first_call=False, path, score, extra)`: the scored paths
   * of every leaf below `t`, each extending `path`; sorted by score below
   * an inner node.
   */
  function Paths(t: Tree, path: seq<Step>, score: real, extra: real): (r: seq<Scored>)
    ensures |r| >= 1
    decreases t, 1
  {
    var newPath := path + [StepOf(t.seg)];
    var newScore := score + Cost(t.seg, extra);
    if t.kids == [] then [Scored(newPath, newScore)]
    else SortBy(KidsPaths(t.kids, newPath, newScore, extra), ScoreOf)
  }

  /** The flattening comprehension of line 61: the children's lists, concatenated in order. */
  function KidsPaths(kids: seq<Tree>, path: seq<Step>, score: real, extra: real): (r: seq<Scored>)
    ensures kids != [] ==> |r| >= 1
    decreases kids, 0
  {
    if kids == [] then []
    else Paths(kids[0], path, score, extra) + KidsPaths(kids[1..], path, score, extra)
  }

  /**
   * `get_best_path(first_call=True, extra_value=extra)`: a leaf root yields
   * its own one-step path; otherwise the cheapest scored path, with the
   * root's step dropped.
   */
  function GetBestPath(t: Tree, extra: real): Scored {
    var all := Paths(t, [], 0.0, extra);
    assert all[0] in all;
    PathsAreBranches(t, [], 0.0, extra, all[0]);
    if t.kids == [] then all[0]
    else Scored(all[0].path[1..], all[0].score)
  }

  // ---------------------------------------------------------------------
  // Branches of a tree, as an independent reference

  /** `b` lists the nodes from `t` down to a leaf. */
  ghost predicate IsBranch(t: Tree, b: seq<Tree>) {
    && |b| >= 1
    && b[0] == t
    && (forall i :: 0 <= i < |b| - 1 ==> b[i + 1] in b[i].kids)
    && b[|b| - 1].kids == []
  }

  function StepsOf(b: seq<Tree>): (r: seq<Step>)
    ensures |r| == |b|
  {
    if b == [] then [] else [StepOf(b[0].seg)] + StepsOf(b[1..])
  }

  function BranchCost(b: seq<Tree>, extra: real): real {
    if b == [] then 0.0 else Cost(b[0].seg, extra) + BranchCost(b[1..], extra)
  }

  /** The scored path of branch `b`, extending `path` and `score`. */
  function Along(b: seq<Tree>, path: seq<Step>, score: real, extra: real): Scored {
    Scored(path + StepsOf(b), score + BranchCost(b, extra))
  }

  lemma AlongCons(t: Tree, b: seq<Tree>, path: seq<Step>, score: real, extra: real)
    ensures Along([t] + b, path, score, extra)
         == Along(b, path + [StepOf(t.seg)], score + Cost(t.seg, extra), extra)
  {
    assert ([t] + b)[1..] == b;
  }

  lemma AlongLeaf(t: Tree, path: seq<Step>, score: real, extra: real)
    ensures Along([t], path, score, extra) == Scored(path + [StepOf(t.seg)], score + Cost(t.seg, extra))
  {
    assert [t][1..] == [];
    assert StepsOf([t]) == [StepOf(t.seg)] + StepsOf([]);
    assert BranchCost([t], extra) == Cost(t.seg, extra) + BranchCost([], extra);
  }

  lemma BranchCons(t: Tree, b: seq<Tree>)
    requires t.kids != []
    ensures IsBranch(t, b) <==> |b| >= 2 && b[0] == t && b[1] in t.kids && IsBranch(b[1], b[1..])
  {
    if |b| >= 2 && b[0] == t && b[1] in t.kids && IsBranch(b[1], b[1..]) {
      forall i | 0 <= i < |b| - 1 ensures b[i + 1] in b[i].kids {
        if i > 0 {
          assert b[i + 1] == b[1..][i] && b[i] == b[1..][i - 1];
        }
      }
    }
    if IsBranch(t, b) {
      forall i | 0 <= i < |b[1..]| - 1 ensures b[1..][i + 1] in b[1..][i].kids {
        assert b[1..][i + 1] == b[i + 2] && b[1..][i] == b[i + 1];
      }
    }
  }

  /** `x` is an entry of the `i`-th child's list. */
  predicate InKid(kids: seq<Tree>, i: int, x: Scored, path: seq<Step>, score: real, extra: real) {
    0 <= i < |kids| && x in Paths(kids[i], path, score, extra)
  }

  lemma {:induction false} KidsPathsMembers(kids: seq<Tree>, path: seq<Step>, score: real, extra: real, x: Scored)
    ensures x in KidsPaths(kids, path, score, extra) <==> exists i :: InKid(kids, i, x, path, score, extra)
    decreases kids
  {
    if kids != [] {
      var rest := kids[1..];
      KidsPathsMembers(rest, path, score, extra, x);
      if x in KidsPaths(rest, path, score, extra) {
        var j :| InKid(rest, j, x, path, score, extra);
        assert rest[j] == kids[j + 1];
        assert InKid(kids, j + 1, x, path, score, extra);
      }
      if x in Paths(kids[0], path, score, extra) {
        assert InKid(kids, 0, x, path, score, extra);
      }
      if i :| InKid(kids, i, x, path, score, extra) {
        if i > 0 {
          assert kids[i] == rest[i - 1];
          assert InKid(rest, i - 1, x, path, score, extra);
        }
      }
    }
  }

  /** Below an inner node, the list holds the children's entries and no others. */
  lemma InnerPaths(t: Tree, path: seq<Step>, score: real, extra: real, x: Scored)
    requires t.kids != []
    ensures x in Paths(t, path, score, extra)
        <==> x in KidsPaths(t.kids, path + [StepOf(t.seg)], score + Cost(t.seg, extra), extra)
  {
    SortByMembers(KidsPaths(t.kids, path + [StepOf(t.seg)], score + Cost(t.seg, extra), extra), ScoreOf, x);
  }

  /** Every branch below `t` contributes its scored path. */
  lemma {:induction false} BranchesArePaths(t: Tree, b: seq<Tree>, path: seq<Step>, score: real, extra: real)
    requires IsBranch(t, b)
    ensures Along(b, path, score, extra) in Paths(t, path, score, extra)
    decreases t
  {
    var x := Along(b, path, score, extra);
    if t.kids == [] {
      assert b == [t];
      AlongLeaf(t, path, score, extra);
    } else {
      BranchCons(t, b);
      assert b == [t] + b[1..];
      AlongCons(t, b[1..], path, score, extra);
      var newPath, newScore := path + [StepOf(t.seg)], score + Cost(t.seg, extra);
      var i :| 0 <= i < |t.kids| && t.kids[i] == b[1];
      BranchesArePaths(b[1], b[1..], newPath, newScore, extra);
      assert InKid(t.kids, i, x, newPath, newScore, extra);
      KidsPathsMembers(t.kids, newPath, newScore, extra, x);
      InnerPaths(t, path, score, extra, x);
    }
  }

  /** `b` is a branch of `t` whose scored path is `x`. */
  ghost predicate ScoredBranch(t: Tree, b: seq<Tree>, x: Scored, path: seq<Step>, score: real, extra: real) {
    IsBranch(t, b) && x == Along(b, path, score, extra)
  }

  /** A branch of a child, with the node in front, is a branch of the node. */
  lemma LiftBranch(t: Tree, k: Tree, b: seq<Tree>, x: Scored, path: seq<Step>, score: real, extra: real)
    requires k in t.kids
    requires ScoredBranch(k, b, x, path + [StepOf(t.seg)], score + Cost(t.seg, extra), extra)
    ensures ScoredBranch(t, [t] + b, x, path, score, extra)
  {
    BranchCons(t, [t] + b);
    assert ([t] + b)[1..] == b;
    AlongCons(t, b, path, score, extra);
  }

  /** Every entry of the list is the scored path of a branch below `t`. */
  lemma {:induction false} PathsAreBranches(t: Tree, path: seq<Step>, score: real, extra: real, x: Scored)
    requires x in Paths(t, path, score, extra)
    ensures exists b :: ScoredBranch(t, b, x, path, score, extra)
    decreases t, 1
  {
    if t.kids == [] {
      assert IsBranch(t, [t]);
      AlongLeaf(t, path, score, extra);
      assert ScoredBranch(t, [t], x, path, score, extra);
    } else {
      var newPath, newScore := path + [StepOf(t.seg)], score + Cost(t.seg, extra);
      InnerPaths(t, path, score, extra, x);
      KidsPathsMembers(t.kids, newPath, newScore, extra, x);
      var i :| InKid(t.kids, i, x, newPath, newScore, extra);
      KidPathsAreBranches(t, i, path, score, extra, x);
    }
  }

  lemma {:induction false} KidPathsAreBranches(t: Tree, i: int, path: seq<Step>, score: real, extra: real, x: Scored)
    requires InKid(t.kids, i, x, path + [StepOf(t.seg)], score + Cost(t.seg, extra), extra)
    ensures exists b :: ScoredBranch(t, b, x, path, score, extra)
    decreases t, 0
  {
    var newPath, newScore := path + [StepOf(t.seg)], score + Cost(t.seg, extra);
    var k := t.kids[i];
    PathsAreBranches(k, newPath, newScore, extra, x);
    var b :| ScoredBranch(k, b, x, newPath, newScore, extra);
    LiftBranch(t, k, b, x, path, score, extra);
  }

  /** `r` is what branch `b` of `t` gives at the top level: the root's step is dropped below an inner root. */
  ghost predicate Realises(t: Tree, b: seq<Tree>, r: Scored, extra: real) {
    && IsBranch(t, b)
    && r.score == BranchCost(b, extra)
    && r.path == if t.kids == [] then StepsOf(b) else StepsOf(b)[1..]
  }

  /**
   * `get_best_path` returns the cheapest branch: what it returns is the
   * path and score of some branch, and no branch scores less.
   */
  lemma GetBestPathIsCheapest(t: Tree, extra: real)
    ensures exists b :: Realises(t, b, GetBestPath(t, extra), extra)
    ensures forall b :: IsBranch(t, b) ==> GetBestPath(t, extra).score <= BranchCost(b, extra)
  {
    BestPathRealised(t, extra);
    forall b | IsBranch(t, b) ensures GetBestPath(t, extra).score <= BranchCost(b, extra) {
      NoBranchCheaper(t, b, extra);
    }
  }

  /**
   * Entry `k` of the children's flattened list is the first of least score,
   * and it is the result of `get_best_path` with the root's step in front.
   */
  predicate CheapestAt(t: Tree, extra: real, k: int) {
    var all := KidsPaths(t.kids, [StepOf(t.seg)], Cost(t.seg, extra), extra);
    var best := GetBestPath(t, extra);
    FirstLeast(all, ScoreOf, k) && all[k] == Scored([StepOf(t.seg)] + best.path, best.score)
  }

  /**
   * Ties are broken by child order: below an inner root, the result is the
   * first entry of least score in the flattened list of line 61, which
   * holds the children's lists one after the other, in child order.
   */
  lemma GetBestPathFirstOfTies(t: Tree, extra: real)
    requires t.kids != []
    ensures exists k :: CheapestAt(t, extra, k)
  {
    assert [] + [StepOf(t.seg)] == [StepOf(t.seg)];
    var all := KidsPaths(t.kids, [StepOf(t.seg)], Cost(t.seg, extra), extra);
    var sorted := Paths(t, [], 0.0, extra);
    assert sorted == SortBy(all, ScoreOf);
    SortByHeadFirstOfLeast(all, ScoreOf);
    var k :| FirstLeast(all, ScoreOf, k) && sorted[0] == all[k];
    assert sorted[0] in sorted;
    PathsAreBranches(t, [], 0.0, extra, sorted[0]);
    var b: seq<Tree> :| ScoredBranch(t, b, sorted[0], [], 0.0, extra);
    var path := sorted[0].path;
    assert path == [] + StepsOf(b) == [StepOf(b[0].seg)] + StepsOf(b[1..]);
    assert path == [StepOf(t.seg)] + path[1..];
    var best := GetBestPath(t, extra);
    assert best == Scored(path[1..], sorted[0].score);
    assert CheapestAt(t, extra, k);
  }

  lemma BestPathRealised(t: Tree, extra: real)
    ensures exists b :: Realises(t, b, GetBestPath(t, extra), extra)
  {
    var all := Paths(t, [], 0.0, extra);
    assert all[0] in all;
    PathsAreBranches(t, [], 0.0, extra, all[0]);
    var b0 :| ScoredBranch(t, b0, all[0], [], 0.0, extra);
    assert [] + StepsOf(b0) == StepsOf(b0);
    assert Realises(t, b0, GetBestPath(t, extra), extra);
  }

  lemma NoBranchCheaper(t: Tree, b: seq<Tree>, extra: real)
    requires IsBranch(t, b)
    ensures GetBestPath(t, extra).score <= BranchCost(b, extra)
  {
    var all := Paths(t, [], 0.0, extra);
    BranchesArePaths(t, b, [], 0.0, extra);
    var j :| 0 <= j < |all| && all[j] == Along(b, [], 0.0, extra);
    if t.kids != [] && j > 0 {
      assert ScoreOf(all[0]) <= ScoreOf(all[j]);
    }
  }

  /**
   * The best score depends only on the node and on which children it has:
   * their order and repetitions do not matter.
   */
  lemma BestScoreDependsOnKidSet(t1: Tree, t2: Tree, extra: real)
    requires t1.seg == t2.seg && t1.kids != [] && t2.kids != []
    requires forall k :: k in t1.kids <==> k in t2.kids
    ensures GetBestPath(t1, extra).score == GetBestPath(t2, extra).score
  {
    BestScoreNoWorse(t1, t2, extra);
    BestScoreNoWorse(t2, t1, extra);
  }

  /** With at least the children of `t1`, `t2` scores no worse. */
  lemma BestScoreNoWorse(t1: Tree, t2: Tree, extra: real)
    requires t1.seg == t2.seg && t1.kids != [] && t2.kids != []
    requires forall k :: k in t1.kids ==> k in t2.kids
    ensures GetBestPath(t2, extra).score <= GetBestPath(t1, extra).score
  {
    BestPathRealised(t1, extra);
    var b1 :| Realises(t1, b1, GetBestPath(t1, extra), extra);
    SwapRoot(t1, t2, b1, extra);
    NoBranchCheaper(t2, [t2] + b1[1..], extra);
  }

  /** A branch of `t1` is, with `t2` in front instead, a branch of `t2` of the same cost. */
  lemma SwapRoot(t1: Tree, t2: Tree, b: seq<Tree>, extra: real)
    requires t1.seg == t2.seg && t1.kids != [] && t2.kids != []
    requires forall k :: k in t1.kids ==> k in t2.kids
    requires IsBranch(t1, b)
    ensures IsBranch(t2, [t2] + b[1..]) && BranchCost([t2] + b[1..], extra) == BranchCost(b, extra)
  {
    BranchCons(t1, b);
    var b' := [t2] + b[1..];
    assert b'[1..] == b[1..];
    BranchCons(t2, b');
  }

  /**
   * Attaching the same child twice, as `expand_tree` does, gives the same
   * best score as attaching it once.
   */
  lemma DuplicateChildKeepsBestScore(seg: Segment, ks: seq<Tree>, c: Tree, extra: real)
    ensures GetBestPath(Node(seg, ks + [c, c]), extra).score == GetBestPath(Node(seg, ks + [c]), extra).score
  {
    forall k ensures k in ks + [c, c] <==> k in ks + [c] {
      assert k in ks + [c, c] <==> k in ks || k == c;
      assert k in ks + [c] <==> k in ks || k == c;
    }
    BestScoreDependsOnKidSet(Node(seg, ks + [c, c]), Node(seg, ks + [c]), extra);
  }
}
