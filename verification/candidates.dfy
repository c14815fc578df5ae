/**
 * Candidate ranking of scripts/0_extract_codas.py: `get_candidates_sorted_filtered`
 * keeps the distances within a threshold, best first, and `get_coda` picks
 * the single best entry.
 */
module Candidates {
  import opened Wrappers
  import opened Sorting
  import opened Distance

  /** The sort key `lambda x: x[1]`. */
  function DistanceOf(c: Candidate): real {
    c.distance
  }

  /** `sorted(list(distances.items()), key=lambda x: x[1])`. */
  function Ranking(w: seq<real>, lib: seq<Template>, onlyEqual: bool): seq<Candidate>
    requires Positive(w)
  {
    SortBy(Distances(w, lib, onlyEqual), DistanceOf)
  }

  /** The comprehension of lines 96-98: the entries within `threshold`, order kept. */
  function WithinThreshold(cs: seq<Candidate>, threshold: real): (r: seq<Candidate>)
    ensures |r| <= |cs|
  {
    if cs == [] then []
    else (if cs[0].distance <= threshold then [cs[0]] else []) + WithinThreshold(cs[1..], threshold)
  }

  /**
   * `get_candidates_sorted_filtered`: exactly the accepted templates whose
   * distance is within `threshold`, in non-decreasing order of distance;
   * they are the head of the full ranking, and everything after them is
   * beyond the threshold.
   */
  function CandidatesSortedFiltered(w: seq<real>, lib: seq<Template>, threshold: real, onlyEqual: bool)
    : (r: seq<Candidate>)
    requires Positive(w)
    ensures forall c :: c in r <==> c in Distances(w, lib, onlyEqual) && c.distance <= threshold
    ensures SortedBy(r, DistanceOf)
    ensures |r| <= |Ranking(w, lib, onlyEqual)| && r == Ranking(w, lib, onlyEqual)[..|r|]
    ensures forall j :: |r| <= j < |Ranking(w, lib, onlyEqual)| ==> Ranking(w, lib, onlyEqual)[j].distance > threshold
  {
    RankedFilter(Distances(w, lib, onlyEqual), threshold);
    WithinThreshold(Ranking(w, lib, onlyEqual), threshold)
  }

  /**
   * `get_coda`: nothing when no template is accepted, otherwise an accepted
   * entry of least distance.
   */
  function GetCoda(w: seq<real>, lib: seq<Template>, onlyEqual: bool): (r: Option<Candidate>)
    requires Positive(w)
    ensures r.None? <==> Distances(w, lib, onlyEqual) == []
    ensures r.Some? ==> r.value in Distances(w, lib, onlyEqual)
    ensures r.Some? ==> forall c :: c in Distances(w, lib, onlyEqual) ==> r.value.distance <= c.distance
  {
    var ranking := Ranking(w, lib, onlyEqual);
    RankingHead(Distances(w, lib, onlyEqual));
    if |ranking| > 0 then Some(ranking[0]) else None
  }

  // ---------------------------------------------------------------------
  // Sorting and filtering any list of entries

  /** The head of a ranking is an entry of least distance. */
  lemma RankingHead(ds: seq<Candidate>)
    ensures var ranking := SortBy(ds, DistanceOf);
            && (ranking == [] <==> ds == [])
            && (ranking != [] ==> ranking[0] in ds && forall c :: c in ds ==> ranking[0].distance <= c.distance)
  {
    var ranking := SortBy(ds, DistanceOf);
    if ranking != [] {
      assert ranking[0] in multiset(ranking);
      forall c | c in ds ensures ranking[0].distance <= c.distance {
        assert c in multiset(ranking);
        var j :| 0 <= j < |ranking| && ranking[j] == c;
        assert DistanceOf(ranking[0]) <= DistanceOf(ranking[j]);
      }
    }
  }

  lemma RankedFilter(ds: seq<Candidate>, threshold: real)
    ensures var ranking := SortBy(ds, DistanceOf);
            var r := WithinThreshold(ranking, threshold);
            && (forall c :: c in r <==> c in ds && c.distance <= threshold)
            && SortedBy(r, DistanceOf)
            && r == ranking[..|r|]
            && forall j :: |r| <= j < |ranking| ==> ranking[j].distance > threshold
  {
    var ranking := SortBy(ds, DistanceOf);
    SortedFilterIsPrefix(ranking, threshold);
    WithinThresholdMembers(ranking, threshold);
    forall c ensures c in ranking <==> c in ds {
      assert c in ranking <==> c in multiset(ranking);
    }
  }

  lemma {:induction false} WithinThresholdMembers(cs: seq<Candidate>, threshold: real)
    ensures forall c :: c in WithinThreshold(cs, threshold) <==> c in cs && c.distance <= threshold
  {
    if cs != [] {
      WithinThresholdMembers(cs[1..], threshold);
      assert forall c :: c in cs <==> c == cs[0] || c in cs[1..];
    }
  }

  lemma {:induction false} NoneWithin(cs: seq<Candidate>, threshold: real)
    requires forall j :: 0 <= j < |cs| ==> cs[j].distance > threshold
    ensures WithinThreshold(cs, threshold) == []
  {
    if cs != [] {
      NoneWithin(cs[1..], threshold);
    }
  }

  /** Filtering a ranking by a threshold keeps a prefix of it. */
  lemma {:induction false} SortedFilterIsPrefix(cs: seq<Candidate>, threshold: real)
    requires SortedBy(cs, DistanceOf)
    ensures var r := WithinThreshold(cs, threshold);
            && r == cs[..|r|]
            && forall j :: |r| <= j < |cs| ==> cs[j].distance > threshold
  {
    if cs != [] {
      if cs[0].distance <= threshold {
        SortedFilterIsPrefix(cs[1..], threshold);
        var rest := WithinThreshold(cs[1..], threshold);
        assert cs[..|rest| + 1] == [cs[0]] + cs[1..][..|rest|];
        forall j | |rest| + 1 <= j < |cs| ensures cs[j].distance > threshold {
          assert cs[j] == cs[1..][j - 1];
        }
      } else {
        assert forall j :: 0 <= j < |cs| ==> DistanceOf(cs[0]) <= DistanceOf(cs[j]);
        NoneWithin(cs, threshold);
      }
    }
  }

  // ---------------------------------------------------------------------
  // Properties of the ranking

  /**
   * Raising the threshold never removes a candidate: the candidates under
   * the lower threshold are a prefix of those under the higher one.
   */
  lemma RaisingThresholdKeepsCandidates(w: seq<real>, lib: seq<Template>, low: real, high: real, onlyEqual: bool)
    requires Positive(w) && low <= high
    ensures var lo, hi := CandidatesSortedFiltered(w, lib, low, onlyEqual), CandidatesSortedFiltered(w, lib, high, onlyEqual);
            |lo| <= |hi| && lo == hi[..|lo|]
  {
    FilterMonotone(Ranking(w, lib, onlyEqual), low, high);
  }

  /**
   * `get_coda` returns the head of the ranking: whenever some candidate is
   * within the threshold, it is the first candidate, and it is within the
   * threshold exactly when some candidate is.
   */
  lemma GetCodaHeadsCandidates(w: seq<real>, lib: seq<Template>, threshold: real, onlyEqual: bool)
    requires Positive(w)
    ensures var cands := CandidatesSortedFiltered(w, lib, threshold, onlyEqual);
            var best := GetCoda(w, lib, onlyEqual);
            && (cands != [] ==> best == Some(cands[0]))
            && (cands != [] <==> best.Some? && best.value.distance <= threshold)
  {
    var cands := CandidatesSortedFiltered(w, lib, threshold, onlyEqual);
    var ranking := Ranking(w, lib, onlyEqual);
    if |ranking| > 0 && ranking[0].distance <= threshold {
      assert ranking[0] in Distances(w, lib, onlyEqual) by {
        assert ranking[0] in multiset(ranking);
      }
      assert ranking[0] in cands;
    }
  }

  /** `ds[k]` is `best`, and every entry before it is farther. */
  predicate FirstOfLeast(ds: seq<Candidate>, k: int, best: Candidate) {
    0 <= k < |ds| && ds[k] == best && forall j :: 0 <= j < k ==> ds[j].distance > best.distance
  }

  /**
   * Ties are broken by the library's order: `get_coda` returns the first
   * accepted template, in library order, among those of least distance.
   */
  lemma GetCodaFirstOfTies(w: seq<real>, lib: seq<Template>, onlyEqual: bool)
    requires Positive(w)
    requires GetCoda(w, lib, onlyEqual).Some?
    ensures exists k :: FirstOfLeast(Distances(w, lib, onlyEqual), k, GetCoda(w, lib, onlyEqual).value)
  {
    RankingHeadFirstOfTies(Distances(w, lib, onlyEqual));
  }

  lemma FilterMonotone(cs: seq<Candidate>, low: real, high: real)
    requires SortedBy(cs, DistanceOf) && low <= high
    ensures var lo, hi := WithinThreshold(cs, low), WithinThreshold(cs, high);
            |lo| <= |hi| && lo == hi[..|lo|]
    decreases |cs|
  {
    if cs != [] {
      if cs[0].distance <= low {
        FilterMonotone(cs[1..], low, high);
      } else {
        assert forall j :: 0 <= j < |cs| ==> DistanceOf(cs[0]) <= DistanceOf(cs[j]);
        NoneWithin(cs, low);
      }
    }
  }

  lemma RankingHeadFirstOfTies(ds: seq<Candidate>)
    requires ds != []
    ensures exists k :: FirstOfLeast(ds, k, SortBy(ds, DistanceOf)[0])
  {
    SortByHeadFirstOfLeast(ds, DistanceOf);
    var k :| FirstLeast(ds, DistanceOf, k) && SortBy(ds, DistanceOf)[0] == ds[k];
    assert FirstOfLeast(ds, k, SortBy(ds, DistanceOf)[0]);
  }
}
