/**
 * The distance check of scripts/0_extract_codas.py (`coda_distances`): how
 * close the shape of a window of inter-click intervals is to each coda
 * template of the library.
 *
 * The window is normalised by its own sum and accumulated; the running sum,
 * cut to a template's length, is compared with the template in L1 distance.
 * A template is accepted only when the number of running-sum entries within
 * `Tolerance` of 1.0 is exactly one (strict mode) or at most one (lenient
 * mode). Numbers are exact reals, not IEEE floats.
 */
module Distance {
  import opened Wrappers

  /** The label of templates that never take part in matching. */
  const Excluded: int := -1

  /** How close to 1.0 a running-sum entry must be to count as 1.0. */
  const Tolerance: real := 0.0000000001

  /** One coda template: its label and its normalised cumulative shape. */
  datatype Template = Template(coda: int, shape: seq<real>)

  /** One entry of the distance dictionary: a label and its distance. */
  datatype Candidate = Candidate(coda: int, distance: real)

  /** Every inter-click interval is positive (the caller drops the others). */
  predicate Positive(s: seq<real>) {
    forall i :: 0 <= i < |s| ==> s[i] > 0.0
  }

  /**
   * The library is a dictionary, so its labels are distinct, and every
   * template has at least one entry.
   */
  predicate LibraryOk(lib: seq<Template>) {
    && (forall i, j :: 0 <= i < j < |lib| ==> lib[i].coda != lib[j].coda)
    && (forall i :: 0 <= i < |lib| ==> |lib[i].shape| > 0)
  }

  /** The labels of the library. */
  function Labels(lib: seq<Template>): set<int> {
    set t | t in lib :: t.coda
  }

  /** `coda_lengths[coda]`: the length of the template with that label. */
  function LengthOf(lib: seq<Template>, coda: int): (n: nat)
    requires coda in Labels(lib)
    ensures LibraryOk(lib) ==> n > 0
    ensures LibraryOk(lib) ==> forall t :: t in lib && t.coda == coda ==> |t.shape| == n
  {
    if lib[0].coda == coda then |lib[0].shape|
    else
      assert forall t :: t in lib && t != lib[0] ==> t in lib[1..];
      LengthOf(lib[1..], coda)
  }

  function Sum(s: seq<real>): (r: real)
    ensures Positive(s) ==> r >= 0.0
    ensures Positive(s) && s != [] ==> r > 0.0
  {
    if s == [] then 0.0 else Sum(s[..|s| - 1]) + s[|s| - 1]
  }

  /** Every entry divided by `c`. */
  function Scaled(s: seq<real>, c: real): (r: seq<real>)
    requires c != 0.0
    ensures |r| == |s|
  {
    seq(|s|, i requires 0 <= i < |s| => s[i] / c)
  }

  /** `sequence_ / sequence_.sum()`. */
  function Normalize(s: seq<real>): (r: seq<real>)
    requires Positive(s)
    ensures |r| == |s|
  {
    if s == [] then [] else Scaled(s, Sum(s))
  }

  /** `np.cumsum`: entry k is the sum of the first k + 1 entries. */
  function CumSum(s: seq<real>): (r: seq<real>)
    ensures |r| == |s|
    ensures forall k :: 0 <= k < |s| ==> r[k] == Sum(s[..k + 1])
  {
    if s == [] then []
    else
      var p := s[..|s| - 1];
      var r := CumSum(p) + [Sum(s)];
      forall k | 0 <= k < |s| ensures r[k] == Sum(s[..k + 1]) {
        if k < |s| - 1 {
          assert p[..k + 1] == s[..k + 1];
        } else {
          assert s[..k + 1] == s;
        }
      }
      r
  }

  /**
   * The normalised running sum of the window cut to `n` entries (line 74):
   * entry k is the share of the window's total taken by its first k + 1
   * intervals.
   */
  function Profile(w: seq<real>, n: nat): (r: seq<real>)
    requires Positive(w) && n <= |w|
    ensures |r| == n
    ensures forall k :: 0 <= k < n ==> r[k] == Sum(w[..k + 1]) / Sum(w)
  {
    var r := CumSum(Normalize(w))[..n];
    forall k | 0 <= k < n ensures r[k] == Sum(w[..k + 1]) / Sum(w) {
      ScaledPrefixSum(w, Sum(w), k + 1);
    }
    r
  }

  /** `np.abs(x - 1.0) < 1e-10`. */
  predicate NearOne(x: real) {
    -Tolerance < x - 1.0 < Tolerance
  }

  /** `np.sum(np.abs(c - 1.0) < 1e-10)`. */
  function CountNearOne(c: seq<real>): (n: nat)
    ensures n <= |c|
  {
    if c == [] then 0
    else CountNearOne(c[..|c| - 1]) + (if NearOne(c[|c| - 1]) then 1 else 0)
  }

  /** The acceptance rule of line 76. */
  predicate Accepts(n: nat, onlyEqual: bool) {
    (n <= 1 && !onlyEqual) || n == 1
  }

  /** `np.abs` of one entry: never negative, and `x` or `-x`. */
  function Abs(x: real): (r: real)
    ensures r >= 0.0 && (r == x || r == -x)
  {
    if x < 0.0 then -x else x
  }

  /** The Manhattan (L1) distance of two vectors of one length. */
  function L1(a: seq<real>, b: seq<real>): (d: real)
    requires |a| == |b|
    ensures d >= 0.0
  {
    if a == [] then 0.0
    else L1(a[..|a| - 1], b[..|b| - 1]) + Abs(a[|a| - 1] - b[|b| - 1])
  }

  /** One pass of the loop of lines 72-79: the distance recorded for `t`. */
  function Match(w: seq<real>, t: Template, onlyEqual: bool): Option<real>
    requires Positive(w)
  {
    if t.coda != Excluded && |w| >= |t.shape| then
      var profile := Profile(w, |t.shape|);
      if Accepts(CountNearOne(profile), onlyEqual) then Some(L1(profile, t.shape))
      else None
    else None
  }

  /**
   * The dictionary `coda_distances` returns, as its items in insertion
   * order (the library's order).
   */
  function Distances(w: seq<real>, lib: seq<Template>, onlyEqual: bool): (r: seq<Candidate>)
    requires Positive(w)
    ensures |r| <= |lib|
    ensures forall c :: c in r ==> c.coda != Excluded && c.distance >= 0.0
    ensures forall c :: c in r ==> c.coda in Labels(lib)
  {
    if lib == [] then []
    else
      var rest := Distances(w, lib[..|lib| - 1], onlyEqual);
      var t := lib[|lib| - 1];
      assert forall u :: u in lib[..|lib| - 1] ==> u in lib;
      match Match(w, t, onlyEqual)
      case Some(d) => rest + [Candidate(t.coda, d)]
      case None => rest
  }

  /** The loop of lines 71-81, filling the dictionary template by template. */
  method CodaDistances(w: seq<real>, lib: seq<Template>, onlyEqual: bool)
    returns (distance: seq<Candidate>)
    requires Positive(w)
    ensures distance == Distances(w, lib, onlyEqual)
  {
    distance := [];
    var i := 0;
    while i < |lib|
      invariant 0 <= i <= |lib|
      invariant distance == Distances(w, lib[..i], onlyEqual)
    {
      var t := lib[i];
      DistancesSnoc(w, lib, i, onlyEqual);
      if t.coda != Excluded && |w| >= |t.shape| {
        var profile := CumSum(Normalize(w))[..|t.shape|];
        assert profile == Profile(w, |t.shape|);
        var nEqualOne := CountNearOne(profile);
        if (nEqualOne <= 1 && !onlyEqual) || nEqualOne == 1 {
          distance := distance + [Candidate(t.coda, L1(profile, t.shape))];
        }
      }
      i := i + 1;
    }
    assert lib[..|lib|] == lib;
  }

  /** One more template adds its entry, if it yields one, at the end. */
  lemma DistancesSnoc(w: seq<real>, lib: seq<Template>, i: nat, onlyEqual: bool)
    requires Positive(w) && i < |lib|
    ensures var before := Distances(w, lib[..i], onlyEqual);
            Distances(w, lib[..i + 1], onlyEqual)
              == match Match(w, lib[i], onlyEqual)
                 case Some(d) => before + [Candidate(lib[i].coda, d)]
                 case None => before
  {
    assert lib[..i + 1][..i] == lib[..i];
  }

  // ---------------------------------------------------------------------
  // Arithmetic of the running sum

  lemma DivAdd(a: real, b: real, c: real)
    requires c != 0.0
    ensures a / c + b / c == (a + b) / c
  {
    var x, y := a / c, b / c;
    assert x * c == a && y * c == b;
    assert (x + y) * c == a + b;
  }

  lemma {:induction false} ScaledSum(s: seq<real>, c: real)
    requires c != 0.0
    ensures Sum(Scaled(s, c)) == Sum(s) / c
  {
    if s != [] {
      var p := s[..|s| - 1];
      ScaledSum(p, c);
      assert Scaled(s, c)[..|s| - 1] == Scaled(p, c);
      DivAdd(Sum(p), s[|s| - 1], c);
    }
  }

  lemma ScaledPrefixSum(s: seq<real>, c: real, n: nat)
    requires c != 0.0 && n <= |s|
    ensures Sum(Scaled(s, c)[..n]) == Sum(s[..n]) / c
  {
    assert Scaled(s, c)[..n] == Scaled(s[..n], c);
    ScaledSum(s[..n], c);
  }

  lemma {:induction false} SumSplit(s: seq<real>, k: nat)
    requires k <= |s|
    ensures Sum(s) == Sum(s[..k]) + Sum(s[k..])
    decreases |s|
  {
    if k < |s| {
      var p := s[..|s| - 1];
      SumSplit(p, k);
      assert p[..k] == s[..k];
      assert p[k..] == s[k..|s| - 1];
      assert s[k..][..|s[k..]| - 1] == s[k..|s| - 1];
    } else {
      assert s[..k] == s;
    }
  }

  /**
   * A running-sum entry counts as 1.0 exactly when the intervals after it
   * carry less than `Tolerance` of the window's total.
   */
  lemma NearOneIffTailNegligible(w: seq<real>, k: nat)
    requires Positive(w) && k < |w|
    ensures NearOne(Profile(w, |w|)[k]) <==> Sum(w[k + 1..]) < Tolerance * Sum(w)
  {
    var total, head, tail := Sum(w), Sum(w[..k + 1]), Sum(w[k + 1..]);
    SumSplit(w, k + 1);
    assert Positive(w[k + 1..]);
    ShareBelow(head, tail, total);
  }

  /** With `total == head + tail`, the share `head / total` is within `Tolerance` of 1 iff `tail` is small. */
  lemma ShareBelow(head: real, tail: real, total: real)
    requires total > 0.0 && tail >= 0.0 && total == head + tail
    ensures NearOne(head / total) <==> tail < Tolerance * total
  {
    var q := tail / total;
    assert q * total == tail;
    DivAdd(head, tail, total);
    assert head / total == 1.0 - q;
    assert q >= 0.0;
    if q < Tolerance {
      assert q * total < Tolerance * total;
    }
    if tail < Tolerance * total {
      assert q * total < Tolerance * total;
    }
  }

  lemma {:induction false} NoneNearOne(c: seq<real>)
    requires forall k :: 0 <= k < |c| ==> !NearOne(c[k])
    ensures CountNearOne(c) == 0
  {
    if c != [] {
      NoneNearOne(c[..|c| - 1]);
    }
  }

  /** The last entry of a positive sum sits at the end of its running sum. */
  lemma {:induction false} SumAtLeastLast(s: seq<real>, k: nat)
    requires Positive(s) && k < |s|
    ensures Sum(s[k..]) >= s[|s| - 1]
  {
    var t := s[k..];
    assert t[|t| - 1] == s[|s| - 1];
    assert Positive(t[..|t| - 1]);
  }

  /**
   * When no interval is negligible against the window's total, the running
   * sum reaches 1.0 (within `Tolerance`) only at its last entry.
   */
  lemma OnlyLastNearOne(w: seq<real>, k: nat)
    requires Positive(w) && k < |w|
    requires forall i :: 0 <= i < |w| ==> w[i] >= Tolerance * Sum(w)
    ensures NearOne(Profile(w, |w|)[k]) <==> k == |w| - 1
  {
    NearOneIffTailNegligible(w, k);
    if k < |w| - 1 {
      SumAtLeastLast(w, k + 1);
    } else {
      assert w[k + 1..] == [];
    }
  }

  /**
   * The degenerate-match filter: when no interval is negligible against the
   * window's total, the running sum cut to `n` entries holds one entry equal
   * to 1.0 if it spans the whole window and none otherwise.
   */
  lemma CrossingsOfProfile(w: seq<real>, n: nat)
    requires Positive(w) && 0 < n <= |w|
    requires forall i :: 0 <= i < |w| ==> w[i] >= Tolerance * Sum(w)
    ensures CountNearOne(Profile(w, n)) == if n == |w| then 1 else 0
  {
    var profile := Profile(w, n);
    forall k | 0 <= k < n ensures NearOne(profile[k]) <==> k == |w| - 1 {
      CutNearOne(w, n, k);
    }
    CountWhenOnlyAt(profile, |w| - 1);
  }

  /** Entry k of the cut running sum is near 1.0 exactly when it is the window's last. */
  lemma CutNearOne(w: seq<real>, n: nat, k: nat)
    requires Positive(w) && k < n <= |w|
    requires forall i :: 0 <= i < |w| ==> w[i] >= Tolerance * Sum(w)
    ensures NearOne(Profile(w, n)[k]) <==> k == |w| - 1
  {
    OnlyLastNearOne(w, k);
    assert Profile(w, n)[k] == Profile(w, |w|)[k];
  }

  lemma CountWhenOnlyAt(c: seq<real>, m: int)
    requires c != [] && m >= |c| - 1
    requires forall k :: 0 <= k < |c| ==> (NearOne(c[k]) <==> k == m)
    ensures CountNearOne(c) == if m == |c| - 1 then 1 else 0
  {
    NoneNearOne(c[..|c| - 1]);
  }

  /**
   * Hence strict mode accepts a template exactly when it spans the whole
   * window, while lenient mode accepts every template that fits.
   */
  lemma StrictModeAcceptsOnlyFullWindow(w: seq<real>, t: Template)
    requires Positive(w) && |t.shape| > 0
    requires forall i :: 0 <= i < |w| ==> w[i] >= Tolerance * Sum(w)
    ensures Match(w, t, true).Some? <==> t.coda != Excluded && |t.shape| == |w|
    ensures Match(w, t, false).Some? <==> t.coda != Excluded && |t.shape| <= |w|
  {
    if t.coda != Excluded && |t.shape| <= |w| {
      CrossingsOfProfile(w, |t.shape|);
    }
  }

  /** Every template strict mode accepts, lenient mode accepts too, at the same distance. */
  lemma {:induction false} StrictImpliesLenient(w: seq<real>, lib: seq<Template>, c: Candidate)
    requires Positive(w)
    requires c in Distances(w, lib, true)
    ensures c in Distances(w, lib, false)
  {
    var rest := lib[..|lib| - 1];
    if c in Distances(w, rest, true) {
      StrictImpliesLenient(w, rest, c);
    }
  }

  /** Template `t` yields entry `c`. */
  predicate Yields(w: seq<real>, t: Template, onlyEqual: bool, c: Candidate)
    requires Positive(w)
  {
    t.coda == c.coda && Match(w, t, onlyEqual) == Some(c.distance)
  }

  /**
   * The distances are exactly the accepted templates: an entry is present
   * if and only if some template of the library with its label matches at
   * that distance.
   */
  lemma DistancesExactlyAccepted(w: seq<real>, lib: seq<Template>, onlyEqual: bool, c: Candidate)
    requires Positive(w)
    ensures c in Distances(w, lib, onlyEqual) <==> exists t :: t in lib && Yields(w, t, onlyEqual, c)
  {
    if c in Distances(w, lib, onlyEqual) {
      OnlyAcceptedEntries(w, lib, onlyEqual, c);
    }
    if t :| t in lib && Yields(w, t, onlyEqual, c) {
      AllAcceptedEntries(w, lib, onlyEqual, c, t);
    }
  }

  lemma {:induction false} OnlyAcceptedEntries(w: seq<real>, lib: seq<Template>, onlyEqual: bool, c: Candidate)
    requires Positive(w)
    requires c in Distances(w, lib, onlyEqual)
    ensures exists t :: t in lib && Yields(w, t, onlyEqual, c)
  {
    var rest, last := lib[..|lib| - 1], lib[|lib| - 1];
    if c in Distances(w, rest, onlyEqual) {
      OnlyAcceptedEntries(w, rest, onlyEqual, c);
      var t :| t in rest && Yields(w, t, onlyEqual, c);
      assert t in lib;
    } else {
      assert Yields(w, last, onlyEqual, c);
    }
  }

  lemma {:induction false} AllAcceptedEntries(w: seq<real>, lib: seq<Template>, onlyEqual: bool, c: Candidate, t: Template)
    requires Positive(w)
    requires t in lib && Yields(w, t, onlyEqual, c)
    ensures c in Distances(w, lib, onlyEqual)
  {
    var rest, last := lib[..|lib| - 1], lib[|lib| - 1];
    if t != last {
      assert lib == rest + [last];
      assert t in rest;
      AllAcceptedEntries(w, rest, onlyEqual, c, t);
    }
  }

  /**
   * Every entry names a template of the library, and that template fits in
   * the window.
   */
  lemma DistancesFitWindow(w: seq<real>, lib: seq<Template>, onlyEqual: bool, c: Candidate)
    requires Positive(w) && LibraryOk(lib)
    requires c in Distances(w, lib, onlyEqual)
    ensures c.coda in Labels(lib) && LengthOf(lib, c.coda) <= |w|
  {
    DistancesExactlyAccepted(w, lib, onlyEqual, c);
    var t :| t in lib && Yields(w, t, onlyEqual, c);
  }
}
