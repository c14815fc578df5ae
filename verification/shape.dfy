/**
 * The shape of the tree `get_coda_tree` builds (scripts/0_extract_codas.py):
 * every child starts where its parent ends, a coda child covers between one
 * and `eval` intervals of the input and carries exactly those intervals, a
 * noise child covers exactly one interval, and nothing reaches past the end
 * of the input. Growing a tree only appends children.
 */
module Shape {
  import opened Wrappers
  import opened Distance
  import opened SegTree
  import opened Builder

  /** A one-click noise segment `(100, 1.0, start, start + 1)`. */
  predicate NoiseShaped(k: Segment) {
    k.coda == Some(Noise) && k.end == k.start + 1 && k.score == NoiseScore && k.values == []
  }

  /**
   * A coda segment: a library label other than -1, exactly as many
   * intervals as its template (between one and `bound`), the intervals of
   * `whole` it covers, and a distance within the threshold.
   */
  predicate CodaShaped(k: Segment, whole: seq<real>, bound: nat, p: Params) {
    && k.coda.Some?
    && k.coda.value in Labels(p.lib)
    && k.coda.value != Excluded
    && 1 <= k.end - k.start <= bound
    && k.end - k.start == LengthOf(p.lib, k.coda.value)
    && 0 <= k.start <= k.end <= |whole|
    && k.values == whole[k.start..k.end]
    && 0.0 <= k.score <= p.threshold
  }

  /** Child segment `k` continues its parent `parent` inside `whole`. */
  predicate KidOk(parent: Segment, k: Segment, whole: seq<real>, bound: nat, p: Params) {
    && k.start == parent.end
    && 0 <= k.start < k.end <= |whole|
    && (NoiseShaped(k) || CodaShaped(k, whole, bound, p))
  }

  /** Every edge of the tree satisfies `KidOk`. */
  predicate Sound(t: Tree, whole: seq<real>, bound: nat, p: Params)
    decreases t
  {
    forall i :: 0 <= i < |t.kids| ==> KidOk(t.seg, t.kids[i].seg, whole, bound, p) && Sound(t.kids[i], whole, bound, p)
  }

  /** No node has two noise children. */
  predicate OneNoise(t: Tree)
    decreases t
  {
    && (forall i, j :: 0 <= i < j < |t.kids| && IsNoise(t.kids[i]) ==> !IsNoise(t.kids[j]))
    && forall i :: 0 <= i < |t.kids| ==> OneNoise(t.kids[i])
  }

  /** `u` is `t` with zero or more children appended. */
  predicate Extends(t: Tree, u: Tree) {
    u.seg == t.seg && |t.kids| <= |u.kids| && u.kids[..|t.kids|] == t.kids
  }

  /**
   * The context of a call on the suffix `s` of `whole` that starts at
   * `start`, growing a node that ends at `start`.
   */
  predicate Suffix(t: Tree, s: seq<real>, start: int, whole: seq<real>) {
    0 <= start && start + |s| == |whole| && s == whole[start..] && t.seg.end == start
  }

  lemma SoundWithChild(t: Tree, k: Tree, whole: seq<real>, bound: nat, p: Params)
    requires Sound(t, whole, bound, p) && Sound(k, whole, bound, p)
    requires KidOk(t.seg, k.seg, whole, bound, p)
    ensures Sound(WithChild(t, k), whole, bound, p) && Extends(t, WithChild(t, k))
  {
    var u := WithChild(t, k);
    assert u.kids[..|t.kids|] == t.kids;
    forall i | 0 <= i < |u.kids|
      ensures KidOk(u.seg, u.kids[i].seg, whole, bound, p) && Sound(u.kids[i], whole, bound, p)
    {
      if i < |t.kids| {
        assert u.kids[i] == t.kids[i];
      }
    }
  }

  lemma OneNoiseWithChild(t: Tree, k: Tree)
    requires OneNoise(t) && OneNoise(k) && (IsNoise(k) ==> !HasNoiseChild(t))
    ensures OneNoise(WithChild(t, k))
  {
    var u := WithChild(t, k);
    forall i | 0 <= i < |u.kids| ensures OneNoise(u.kids[i]) {
      if i < |t.kids| {
        assert u.kids[i] == t.kids[i];
      }
    }
  }

  lemma ExtendsTrans(a: Tree, b: Tree, c: Tree)
    requires Extends(a, b) && Extends(b, c)
    ensures Extends(a, c)
  {
    assert c.kids[..|a.kids|] == c.kids[..|b.kids|][..|a.kids|];
  }

  /**
   * `get_coda_tree` keeps a sound tree sound and only appends children to
   * it: with the input `whole` and the top-level window `bound`, every
   * segment it adds is contiguous with its parent, no wider than `bound`
   * and inside `whole`.
   */
  lemma {:induction false} CodaTreeSound(t: Tree, s: seq<real>, eval: nat, start: int, p: Params, whole: seq<real>, bound: nat)
    requires RankOk(p) && eval <= bound
    requires Suffix(t, s, start, whole) && Sound(t, whole, bound, p)
    ensures var u := CodaTree(t, s, eval, start, p);
            Sound(u, whole, bound, p) && Extends(t, u)
    ensures Noise !in Labels(p.lib) && OneNoise(t) ==> OneNoise(CodaTree(t, s, eval, start, p))
    decreases |s|, 2, eval
  {
    var cands := WindowCandidates(s, eval, p);
    if |cands| > 0 {
      ExpandSound(t, cands, s, eval, start, p, whole, bound);
    } else {
      var t1 := NoiseStep(t, s, eval, start, p);
      NoiseStepSound(t, s, eval, start, p, whole, bound);
      if eval > 1 {
        CodaTreeSound(t1, s, eval - 1, start, p, whole, bound);
        ExtendsTrans(t, t1, CodaTree(t1, s, eval - 1, start, p));
      }
    }
  }

  /** The noise fallback adds at most one child: a noise node at `start`. */
  lemma {:induction false} NoiseStepSound(t: Tree, s: seq<real>, eval: nat, start: int, p: Params, whole: seq<real>, bound: nat)
    requires RankOk(p) && eval <= bound
    requires Suffix(t, s, start, whole) && Sound(t, whole, bound, p)
    ensures var u := NoiseStep(t, s, eval, start, p);
            Sound(u, whole, bound, p) && Extends(t, u)
    ensures Noise !in Labels(p.lib) && OneNoise(t) ==> OneNoise(NoiseStep(t, s, eval, start, p))
    decreases |s|, 1, 0
  {
    assert t.kids[..|t.kids|] == t.kids;
    if !HasNoiseChild(t) {
      var cands1 := ShiftedCandidates(s, eval, p);
      if |cands1| > 0 {
        assert cands1[0] in cands1;
        var noise := Node(NoiseSegment(start), []);
        var rest := Drop(s, 1);
        assert rest == whole[start + 1..];
        ExpandSound(noise, cands1, rest, eval, start + 1, p, whole, bound);
        SoundWithChild(t, Expand(noise, cands1, rest, eval, start + 1, p), whole, bound, p);
      }
    }
  }

  /** `expand_tree` appends one sound child subtree per candidate. */
  lemma {:induction false} ExpandSound(t: Tree, cands: seq<Candidate>, s: seq<real>, eval: nat, start: int, p: Params, whole: seq<real>, bound: nat)
    requires RankOk(p) && eval <= bound
    requires var n := Min(eval, |s|); forall c :: c in cands ==> Fits(p, n, c)
    requires Suffix(t, s, start, whole) && Sound(t, whole, bound, p)
    ensures var u := Expand(t, cands, s, eval, start, p);
            Sound(u, whole, bound, p) && Extends(t, u)
    ensures Noise !in Labels(p.lib) && OneNoise(t) ==> OneNoise(Expand(t, cands, s, eval, start, p))
    decreases |s|, 0, |cands|
  {
    if cands == [] {
      assert t.kids[..|t.kids|] == t.kids;
    } else {
      var init := cands[..|cands| - 1];
      assert forall c :: c in init ==> c in cands;
      var t1 := Expand(t, init, s, eval, start, p);
      ExpandSound(t, init, s, eval, start, p, whole, bound);
      ExpandOneSound(t1, cands[|cands| - 1], s, eval, start, p, whole, bound);
      ExtendsTrans(t, t1, ExpandOne(t1, cands[|cands| - 1], s, eval, start, p));
    }
  }

  /**
   * One candidate: its child covers exactly the template's length (the
   * `min` with the remaining length never cuts it), followed by the
   * subtree of the remainder, or by a noise leaf at `[end, end + 1)` when a
   * single interval remains.
   */
  lemma {:induction false} ExpandOneSound(t: Tree, c: Candidate, s: seq<real>, eval: nat, start: int, p: Params, whole: seq<real>, bound: nat)
    requires RankOk(p) && eval <= bound
    requires Fits(p, Min(eval, |s|), c)
    requires Suffix(t, s, start, whole) && Sound(t, whole, bound, p)
    ensures var u := ExpandOne(t, c, s, eval, start, p);
            Sound(u, whole, bound, p) && Extends(t, u)
    ensures Noise !in Labels(p.lib) && OneNoise(t) ==> OneNoise(ExpandOne(t, c, s, eval, start, p))
    ensures Min(|s|, LengthOf(p.lib, c.coda)) == LengthOf(p.lib, c.coda)
    decreases |s|, 0, 0
  {
    var length := LengthOf(p.lib, c.coda);
    assert Min(|s|, length) == length;
    var end := start + length;
    var remainder := s[length..];
    var seg := Segment(Some(c.coda), c.distance, start, end, s[..length]);
    assert s[..length] == whole[start..end];
    var child := Node(seg, []);
    assert KidOk(t.seg, seg, whole, bound, p);
    if |remainder| > 1 {
      assert remainder == whole[end..];
      CodaTreeSound(child, remainder, eval, end, p, whole, bound);
      var grown := CodaTree(child, remainder, eval, end, p);
      assert ExpandOne(t, c, s, eval, start, p) == WithChild(WithChild(t, grown), grown);
      TwiceSound(t, grown, whole, bound, p);
    } else if |remainder| == 1 {
      var leaf := Node(NoiseSegment(end), []);
      assert ExpandOne(t, c, s, eval, start, p) == WithChild(t, WithChild(child, leaf));
      SoundWithChild(child, leaf, whole, bound, p);
      SoundWithChild(t, WithChild(child, leaf), whole, bound, p);
      if Noise !in Labels(p.lib) && OneNoise(t) {
        OneNoiseWithChild(child, leaf);
        OneNoiseWithChild(t, WithChild(child, leaf));
      }
    } else {
      assert ExpandOne(t, c, s, eval, start, p) == WithChild(t, child);
      SoundWithChild(t, child, whole, bound, p);
      if Noise !in Labels(p.lib) && OneNoise(t) {
        OneNoiseWithChild(t, child);
      }
    }
  }

  /** The same subtree appended twice, as lines 134 and 137 do. */
  lemma TwiceSound(t: Tree, k: Tree, whole: seq<real>, bound: nat, p: Params)
    requires Sound(t, whole, bound, p) && Sound(k, whole, bound, p)
    requires KidOk(t.seg, k.seg, whole, bound, p)
    ensures var u := WithChild(WithChild(t, k), k);
            Sound(u, whole, bound, p) && Extends(t, u)
    ensures OneNoise(t) && OneNoise(k) && !IsNoise(k) ==> OneNoise(WithChild(WithChild(t, k), k))
  {
    SoundWithChild(t, k, whole, bound, p);
    SoundWithChild(WithChild(t, k), k, whole, bound, p);
    ExtendsTrans(t, WithChild(t, k), WithChild(WithChild(t, k), k));
    if OneNoise(t) && OneNoise(k) && !IsNoise(k) {
      OneNoiseWithChild(t, k);
      OneNoiseWithChild(WithChild(t, k), k);
    }
  }

  /** `expand_tree` returns the node it was given: only the children change. */
  lemma {:induction false} ExpandKeepsSegment(t: Tree, cands: seq<Candidate>, s: seq<real>, eval: nat, start: int, p: Params)
    requires RankOk(p) && forall c :: c in cands ==> c.coda in Labels(p.lib)
    ensures Expand(t, cands, s, eval, start, p).seg == t.seg
    decreases |cands|
  {
    if cands != [] {
      var init := cands[..|cands| - 1];
      assert forall c :: c in init ==> c in cands;
      ExpandKeepsSegment(t, init, s, eval, start, p);
    }
  }

  /**
   * Lines 170-187: a node gets a noise child exactly when it has none yet
   * and the window shifted by one interval has candidates; that child is the
   * one-click segment `(100, 1.0, start, start + 1)`, appended after the
   * existing children. Otherwise the node is left as it was.
   */
  lemma NoiseFallbackConditions(t: Tree, s: seq<real>, eval: nat, start: int, p: Params)
    requires RankOk(p)
    ensures var u := NoiseStep(t, s, eval, start, p);
            if !HasNoiseChild(t) && |ShiftedCandidates(s, eval, p)| > 0 then
              && |u.kids| == |t.kids| + 1
              && u.seg == t.seg
              && u.kids[..|t.kids|] == t.kids
              && u.kids[|t.kids|].seg == NoiseSegment(start)
            else u == t
  {
    var u := NoiseStep(t, s, eval, start, p);
    if !HasNoiseChild(t) {
      var cands1 := ShiftedCandidates(s, eval, p);
      if |cands1| > 0 {
        ExpandKeepsSegment(Node(NoiseSegment(start), []), cands1, Drop(s, 1), eval, start + 1, p);
        assert u.kids[..|t.kids|] == t.kids;
      }
    }
  }
}
