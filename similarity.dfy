/** The two estimators LSH applies to candidate pairs: positional agreement
    of MinHash signatures, and the exact Jaccard ratio of n-gram sets. Both
    look names up with std::map::at, which throws on a missing name. */
module Similarity {
  import opened Common
  import opened Candidates

  /** The `common` counter: positions below |u| where u and v agree; v is
      read at every index of u. */
  function MatchCount(u: seq<U32>, v: seq<U32>): (c: nat)
    requires |u| <= |v|
    ensures c <= |u|
    ensures c == |u| <==> forall i :: 0 <= i < |u| ==> u[i] == v[i]
    ensures c == 0 <==> forall i :: 0 <= i < |u| ==> u[i] != v[i]
  {
    if u == [] then 0
    else MatchCount(u[..|u| - 1], v) + (if u[|u| - 1] == v[|u| - 1] then 1 else 0)
  }

  /** Swapping two signatures of equal length leaves the count unchanged. */
  lemma {:induction false} MatchCountSymmetric(u: seq<U32>, v: seq<U32>)
    requires |u| == |v|
    ensures MatchCount(u, v) == MatchCount(v, u)
    decreases |u|
  {
    if u != [] {
      var u', v' := u[..|u| - 1], v[..|v| - 1];
      var d := if u[|u| - 1] == v[|v| - 1] then 1 else 0;
      assert MatchCount(u, v) == MatchCount(u', v) + d;
      assert MatchCount(v, u) == MatchCount(v', u) + d;
      MatchCountPrefix(u', v);
      MatchCountPrefix(v', u);
      assert v[..|u'|] == v' && u[..|v'|] == u';
      MatchCountSymmetric(u', v');
    }
  }

  /** Only the first |u| values of v are ever read. */
  lemma {:induction false} MatchCountPrefix(u: seq<U32>, v: seq<U32>)
    requires |u| <= |v|
    ensures MatchCount(u, v) == MatchCount(u, v[..|u|])
    decreases |u|
  {
    if u != [] {
      MatchCountPrefix(u[..|u| - 1], v);
      MatchCountPrefix(u[..|u| - 1], v[..|u|]);
      assert v[..|u|][..|u| - 1] == v[..|u| - 1];
    }
  }

  /** The MinHash estimate for one pair: matches over the first signature's
      length (0/0, a NaN in the source, for empty signatures). */
  function MinhashSimilarity(u: seq<U32>, v: seq<U32>): Fraction
    requires |u| <= |v|
  {
    Fraction(MatchCount(u, v), |u|)
  }

  /** The exact Jaccard ratio |A ∩ B| / |A ∪ B| (0/0 for two empty sets). */
  function Jaccard(a: set<string>, b: set<string>): (r: Fraction)
    ensures r.num <= r.den
    ensures r.den == 0 <==> a == {} && b == {}
    ensures a == b && a != {} ==> r.num == r.den
    ensures a !! b ==> r.num == 0
  {
    SubsetCard(a * b, a + b);
    assert a != {} ==> a * a == a + a;
    assert a !! b ==> a * b == {};
    Fraction(|a * b|, |a + b|)
  }

  lemma {:induction false} SubsetCard(s: set<string>, t: set<string>)
    requires s <= t
    ensures |s| <= |t|
    decreases t
  {
    if s != {} {
      var x :| x in s;
      SubsetCard(s - {x}, t - {x});
    }
  }

  lemma JaccardSymmetric(a: set<string>, b: set<string>)
    ensures Jaccard(a, b) == Jaccard(b, a)
  {
    assert a * b == b * a && a + b == b + a;
  }

  // ------------------------------------------------------ per-pair vectors

  predicate Present<V>(m: map<string, V>, cp: CandidatePair) {
    cp.0 in m && cp.1 in m
  }

  /** The name std::map::at throws on: the first name is looked up first. */
  function MissingName<V>(m: map<string, V>, cp: CandidatePair): string {
    if cp.0 !in m then cp.0 else cp.1
  }

  /** Pair i is the first whose lookup throws. */
  ghost predicate FailsAt<V>(m: map<string, V>, cpv: seq<CandidatePair>, i: int) {
    0 <= i < |cpv| && !Present(m, cpv[i]) && forall j :: 0 <= j < i ==> Present(m, cpv[j])
  }

  /** compute_minhash_similarities reads the second signature at every index
      of the first, for every pair it reaches. */
  ghost predicate Comparable(m: map<string, seq<U32>>, cpv: seq<CandidatePair>) {
    forall i :: 0 <= i < |cpv| && Present(m, cpv[i]) && (forall j :: 0 <= j < i ==> Present(m, cpv[j]))
           ==> |m[cpv[i].0]| <= |m[cpv[i].1]|
  }

  /** The outcome of compute_minhash_similarities: one estimate per pair,
      aligned with the pairs, or the first missing name. */
  ghost predicate MinhashSimilaritiesOf(m: map<string, seq<U32>>, cpv: seq<CandidatePair>,
                                        r: Result<seq<Fraction>, string>)
    requires Comparable(m, cpv)
  {
    match r
    case Success(v) =>
      && (forall i :: 0 <= i < |cpv| ==> Present(m, cpv[i]))
      && |v| == |cpv|
      && forall i :: 0 <= i < |cpv| ==> v[i] == MinhashSimilarity(m[cpv[i].0], m[cpv[i].1])
    case Failure(name) =>
      exists i :: FailsAt(m, cpv, i) && name == MissingName(m, cpv[i])
  }

  /** The outcome of compute_ngram_similarities: one Jaccard ratio per pair,
      aligned with the pairs, or the first missing name. */
  ghost predicate NgramSimilaritiesOf(m: map<string, set<string>>, cpv: seq<CandidatePair>,
                                      r: Result<seq<Fraction>, string>)
  {
    match r
    case Success(v) =>
      && (forall i :: 0 <= i < |cpv| ==> Present(m, cpv[i]))
      && |v| == |cpv|
      && forall i :: 0 <= i < |cpv| ==> v[i] == Jaccard(m[cpv[i].0], m[cpv[i].1])
    case Failure(name) =>
      exists i :: FailsAt(m, cpv, i) && name == MissingName(m, cpv[i])
  }

  /** The outcome is a success exactly when every name of every pair is in
      the map; otherwise the failure names the first missing one. */
  lemma MinhashSuccessIffAllPresent(m: map<string, seq<U32>>, cpv: seq<CandidatePair>,
                                    r: Result<seq<Fraction>, string>)
    requires Comparable(m, cpv) && MinhashSimilaritiesOf(m, cpv, r)
    ensures r.Success? <==> forall i :: 0 <= i < |cpv| ==> Present(m, cpv[i])
  {
    if r.Failure? {
      var i :| FailsAt(m, cpv, i) && r.error == MissingName(m, cpv[i]);
      assert !Present(m, cpv[i]);
    }
  }

  /** At most one pair is the first with a missing name. */
  lemma FailsAtUnique<V>(m: map<string, V>, cpv: seq<CandidatePair>, i: int, j: int)
    requires FailsAt(m, cpv, i) && FailsAt(m, cpv, j)
    ensures i == j
  {
  }

  /** The estimates are a function of the signature map and the pairs. */
  lemma MinhashSimilaritiesUnique(m: map<string, seq<U32>>, cpv: seq<CandidatePair>,
                                  r1: Result<seq<Fraction>, string>, r2: Result<seq<Fraction>, string>)
    requires Comparable(m, cpv)
    requires MinhashSimilaritiesOf(m, cpv, r1) && MinhashSimilaritiesOf(m, cpv, r2)
    ensures r1 == r2
  {
    MinhashSuccessIffAllPresent(m, cpv, r1);
    MinhashSuccessIffAllPresent(m, cpv, r2);
    if r1.Failure? {
      var i :| FailsAt(m, cpv, i) && r1.error == MissingName(m, cpv[i]);
      var j :| FailsAt(m, cpv, j) && r2.error == MissingName(m, cpv[j]);
      FailsAtUnique(m, cpv, i, j);
    } else {
      assert r1.value == r2.value;
    }
  }
}
