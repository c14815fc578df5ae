/**
 * The segmentation search tree of scripts/0_extract_codas.py: `TreeNode`
 * with its payload `val` and its list of `children`, which `addChild`
 * extends in place.
 *
 * Each node object carries, as ghost state, the value `model` of the
 * subtree it roots and the set `Repr` of node objects in that subtree, so
 * that the search can be specified on values.
 */
module SegTree {
  import opened Wrappers

  /** The label of a one-click noise segment. */
  const Noise: int := 100

  /** The score stored in a noise node (the best path scores it differently). */
  const NoiseScore: real := 1.0

  /**
   * A node payload `(label, score, start, end, values)`: the label (None at
   * the root), its distance, the range `[start, end)` of the input it
   * covers, and the intervals in that range (empty where the source stores
   * none: the root and noise nodes).
   */
  datatype Segment = Segment(coda: Option<int>, score: real, start: int, end: int, values: seq<real>)

  /** `(100, 1.0, start, start + 1)`. */
  function NoiseSegment(start: int): Segment {
    Segment(Some(Noise), NoiseScore, start, start + 1, [])
  }

  /** The value of a subtree. */
  datatype Tree = Node(seg: Segment, kids: seq<Tree>)

  /** `addChild`, on values. */
  function WithChild(t: Tree, c: Tree): Tree {
    Node(t.seg, t.kids + [c])
  }

  /** The node's label is 100. */
  predicate IsNoise(t: Tree) {
    t.seg.coda == Some(Noise)
  }

  /** `100 in [child.val[0] for child in tree.children]`. */
  predicate HasNoiseChild(t: Tree) {
    exists i :: 0 <= i < |t.kids| && IsNoise(t.kids[i])
  }

  class TreeNode {
    const val: Segment
    var children: seq<TreeNode>

    ghost var model: Tree
    ghost var Repr: set<object>

    /**
     * The node's subtree is finite and acyclic (no node is its own
     * descendant) and `model` is its value.
     */
    ghost predicate Valid()
      reads this, Repr
      ensures Valid() ==> this in Repr && model.seg == val
      decreases Repr
    {
      && this in Repr
      && model.seg == val
      && |model.kids| == |children|
      && forall i :: 0 <= i < |children| ==>
           && children[i] in Repr
           && children[i].Repr <= Repr
           && this !in children[i].Repr
           && children[i].model == model.kids[i]
           && children[i].Valid()
    }

    /** `TreeNode(val)`: a node without children. */
    constructor (v: Segment)
      ensures Valid() && fresh(Repr)
      ensures val == v && children == [] && model == Node(v, [])
    {
      val := v;
      children := [];
      model := Node(v, []);
      Repr := {this};
    }

    /**
     * `addChild`: appends exactly one node and keeps the existing children
     * in order. The appended node is never the parent itself (the source
     * asserts that their names differ); here it may not contain the parent
     * anywhere in its subtree.
     */
    method AddChild(node: TreeNode)
      requires Valid() && node.Valid() && this !in node.Repr
      modifies this
      ensures Valid()
      ensures node != this
      ensures children == old(children) + [node]
      ensures model == WithChild(old(model), node.model)
      ensures Repr == old(Repr) + node.Repr
    {
      children := children + [node];
      model := WithChild(model, node.model);
      Repr := Repr + node.Repr;
    }

    /** The comprehension of line 170, on the node objects. */
    function HasNoiseChildNode(): (b: bool)
      reads this, Repr
      requires Valid()
      ensures b == HasNoiseChild(model)
    {
      exists i :: 0 <= i < |children| && children[i].val.coda == Some(Noise)
    }
  }
}
