/** What LSH::compute_candidate_pairs computes: over the band map's keys in
    ascending order, the pair (keys[i], keys[j]), i < j, whenever the two band
    vectors agree at some index, in (i, j) order. */
module Candidates {
  import opened Common
  import opened Text

  /** lsh.hpp's CandidatePair: an ordered pair of document names. */
  type CandidatePair = (string, string)

  /** Some band index at which the two vectors hold the same value. */
  predicate ShareBand(u: seq<U32>, v: seq<U32>) {
    exists k :: 0 <= k < |u| && k < |v| && u[k] == v[k]
  }

  /** The scan over u's indices reads v up to the first match, so v is long
      enough or a match comes before v runs out. */
  predicate InBounds(u: seq<U32>, v: seq<U32>) {
    |u| <= |v| || ShareBand(u, v)
  }

  /** What compute_candidate_pairs needs of the band map: every read of a
      later key's vector stays in bounds. */
  ghost predicate BandsReadable(m: map<string, seq<U32>>) {
    forall k1, k2 :: k1 in m && k2 in m && StrLess(k1, k2) ==> InBounds(m[k1], m[k2])
  }

  /** Every key the loops walk is in the map. */
  ghost predicate KeysIn(keys: seq<string>, m: map<string, seq<U32>>) {
    forall i :: 0 <= i < |keys| ==> keys[i] in m
  }

  /** The demand of compute_candidate_pairs, on the key sequence the loops
      walk. */
  ghost predicate Readable(keys: seq<string>, m: map<string, seq<U32>>) {
    && KeysIn(keys, m)
    && (forall i, j :: 0 <= i < j < |keys| ==> InBounds(m[keys[i]], m[keys[j]]))
  }

  /** The concatenation of a sequence of runs, in order. */
  function Concat<T>(runs: seq<seq<T>>): seq<T> {
    if runs == [] then [] else Concat(runs[..|runs| - 1]) + runs[|runs| - 1]
  }

  /** The inner loop's step for key b: the pair (keys[i], keys[b]) when the
      two band vectors agree somewhere. */
  function Emit(keys: seq<string>, m: map<string, seq<U32>>, i: nat, b: nat): seq<CandidatePair>
    requires KeysIn(keys, m) && i < b < |keys|
  {
    if ShareBand(m[keys[i]], m[keys[b]]) then [(keys[i], keys[b])] else []
  }

  /** The inner loop's steps for key i, for the later keys below j. */
  function Emits(keys: seq<string>, m: map<string, seq<U32>>, i: nat, j: nat): seq<seq<CandidatePair>>
    requires KeysIn(keys, m) && i < |keys| && j <= |keys|
  {
    var n := if j <= i + 1 then 0 else j - i - 1;
    seq(n, d requires 0 <= d < n => Emit(keys, m, i, i + 1 + d))
  }

  /** The pairs the inner loop emits for key i once j has reached j. */
  function Row(keys: seq<string>, m: map<string, seq<U32>>, i: nat, j: nat): seq<CandidatePair>
    requires KeysIn(keys, m) && i < |keys| && j <= |keys|
  {
    Concat(Emits(keys, m, i, j))
  }

  /** The rows of the keys before i, one per pass of the outer loop. */
  function RowList(keys: seq<string>, m: map<string, seq<U32>>, i: nat): seq<seq<CandidatePair>>
    requires KeysIn(keys, m) && i <= |keys|
  {
    seq(i, a requires 0 <= a < i => Row(keys, m, a, |keys|))
  }

  /** The pairs the outer loop has emitted once it has reached i. */
  function Rows(keys: seq<string>, m: map<string, seq<U32>>, i: nat): seq<CandidatePair>
    requires KeysIn(keys, m) && i <= |keys|
  {
    Concat(RowList(keys, m, i))
  }

  /** The candidate pairs of a band map, its keys taken in map order. */
  ghost function CandidatePairs(m: map<string, seq<U32>>): seq<CandidatePair>
    requires BandsReadable(m)
  {
    var keys := Enumerate(m.Keys);
    assert KeysIn(keys, m);
    Rows(keys, m, |keys|)
  }

  /** p comes before q: first components ascending, then second ones. */
  predicate PairBefore(p: CandidatePair, q: CandidatePair) {
    StrLess(p.0, q.0) || (p.0 == q.0 && StrLess(p.1, q.1))
  }

  ghost predicate PairsAscending(ps: seq<CandidatePair>) {
    forall x, y :: 0 <= x < y < |ps| ==> PairBefore(ps[x], ps[y])
  }

  // ------------------------------------------------------------- membership

  /** Key a's pass of the outer loop emits the pair (keys[a], keys[b]). */
  ghost predicate Emitted(keys: seq<string>, m: map<string, seq<U32>>, a: int, b: int, p: CandidatePair) {
    && 0 <= a < b < |keys| && p == (keys[a], keys[b])
    && keys[a] in m && keys[b] in m && ShareBand(m[keys[a]], m[keys[b]])
  }

  /** Concatenating one more run appends it. */
  lemma ConcatSnoc<T>(runs: seq<seq<T>>, run: seq<T>)
    ensures Concat(runs + [run]) == Concat(runs) + run
  {
    assert (runs + [run])[..|runs|] == runs;
  }

  /** Everything in a concatenation comes from one of its runs. */
  lemma {:induction false} ConcatOnly<T>(runs: seq<seq<T>>, p: T)
    requires p in Concat(runs)
    ensures exists k :: 0 <= k < |runs| && p in runs[k]
  {
    var init := runs[..|runs| - 1];
    assert Concat(runs) == Concat(init) + runs[|runs| - 1];
    if p in Concat(init) {
      ConcatOnly(init, p);
      var k :| 0 <= k < |init| && p in init[k];
      assert runs[k] == init[k];
    }
  }

  /** A concatenation holds everything its runs hold. */
  lemma {:induction false} ConcatHas<T>(runs: seq<seq<T>>, k: nat, p: T)
    requires k < |runs| && p in runs[k]
    ensures p in Concat(runs)
  {
    var init := runs[..|runs| - 1];
    assert Concat(runs) == Concat(init) + runs[|runs| - 1];
    if k < |runs| - 1 {
      assert init[k] == runs[k];
      ConcatHas(init, k, p);
    }
  }

  /** The inner loop's step for key j - 1 appends its emission to the row. */
  lemma RowSnoc(keys: seq<string>, m: map<string, seq<U32>>, i: nat, j: nat)
    requires KeysIn(keys, m) && i + 1 < j <= |keys|
    ensures Row(keys, m, i, j) == Row(keys, m, i, j - 1) + Emit(keys, m, i, j - 1)
  {
    assert Emits(keys, m, i, j) == Emits(keys, m, i, j - 1) + [Emit(keys, m, i, j - 1)];
    ConcatSnoc(Emits(keys, m, i, j - 1), Emit(keys, m, i, j - 1));
  }

  /** The outer loop's pass for key i - 1 appends that key's row. */
  lemma RowsSnoc(keys: seq<string>, m: map<string, seq<U32>>, i: nat)
    requires KeysIn(keys, m) && 0 < i <= |keys|
    ensures Rows(keys, m, i) == Rows(keys, m, i - 1) + Row(keys, m, i - 1, |keys|)
  {
    assert RowList(keys, m, i) == RowList(keys, m, i - 1) + [Row(keys, m, i - 1, |keys|)];
    ConcatSnoc(RowList(keys, m, i - 1), Row(keys, m, i - 1, |keys|));
  }

  /** Everything in row i comes from a key after key i. */
  lemma RowOnly(keys: seq<string>, m: map<string, seq<U32>>, i: nat, j: nat, p: CandidatePair)
    requires KeysIn(keys, m) && i < |keys| && j <= |keys| && p in Row(keys, m, i, j)
    ensures exists b :: b < j && Emitted(keys, m, i, b, p)
  {
    var emits := Emits(keys, m, i, j);
    ConcatOnly(emits, p);
    var d :| 0 <= d < |emits| && p in emits[d];
    assert emits[d] == Emit(keys, m, i, i + 1 + d);
    assert Emitted(keys, m, i, i + 1 + d, p);
  }

  /** Row i holds every pair it is to emit below j. */
  lemma RowHas(keys: seq<string>, m: map<string, seq<U32>>, i: nat, j: nat, b: nat, p: CandidatePair)
    requires KeysIn(keys, m) && i < |keys| && j <= |keys| && b < j && Emitted(keys, m, i, b, p)
    ensures p in Row(keys, m, i, j)
  {
    var emits := Emits(keys, m, i, j);
    assert emits[b - i - 1] == Emit(keys, m, i, b);
    ConcatHas(emits, b - i - 1, p);
  }

  lemma RowMembers(keys: seq<string>, m: map<string, seq<U32>>, i: nat, j: nat, p: CandidatePair)
    requires KeysIn(keys, m) && i < |keys| && j <= |keys|
    ensures p in Row(keys, m, i, j) <==> exists b :: b < j && Emitted(keys, m, i, b, p)
  {
    if p in Row(keys, m, i, j) {
      RowOnly(keys, m, i, j, p);
    } else if b :| b < j && Emitted(keys, m, i, b, p) {
      RowHas(keys, m, i, j, b, p);
    }
  }

  /** Everything the outer loop emits before i comes from a key before i. */
  lemma RowsOnly(keys: seq<string>, m: map<string, seq<U32>>, i: nat, p: CandidatePair)
    requires KeysIn(keys, m) && i <= |keys| && p in Rows(keys, m, i)
    ensures exists a, b :: a < i && Emitted(keys, m, a, b, p)
  {
    var rows := RowList(keys, m, i);
    ConcatOnly(rows, p);
    var a :| 0 <= a < |rows| && p in rows[a];
    RowOnly(keys, m, a, |keys|, p);
    var b :| b < |keys| && Emitted(keys, m, a, b, p);
    assert a < i && Emitted(keys, m, a, b, p);
  }

  /** The outer loop emits every pair whose first key comes before i. */
  lemma RowsHas(keys: seq<string>, m: map<string, seq<U32>>, i: nat, a: nat, b: nat, p: CandidatePair)
    requires KeysIn(keys, m) && i <= |keys| && a < i && Emitted(keys, m, a, b, p)
    ensures p in Rows(keys, m, i)
  {
    RowHas(keys, m, a, |keys|, b, p);
    ConcatHas(RowList(keys, m, i), a, p);
  }

  /** Rows(keys, m, i) holds exactly the pairs (keys[a], keys[b]) with a < i,
      a < b, whose band vectors agree somewhere. */
  lemma RowsMembers(keys: seq<string>, m: map<string, seq<U32>>, i: nat, p: CandidatePair)
    requires KeysIn(keys, m) && i <= |keys|
    ensures p in Rows(keys, m, i) <==> exists a, b :: a < i && Emitted(keys, m, a, b, p)
  {
    if p in Rows(keys, m, i) {
      RowsOnly(keys, m, i, p);
    } else if a, b :| a < i && Emitted(keys, m, a, b, p) {
      RowsHas(keys, m, i, a, b, p);
    }
  }

  // --------------------------------------------------------------- ordering

  /** Two ascending runs split by a name k, every pair of the first run
      starting before k and every pair of the second starting with k, make
      one ascending run. */
  lemma ConcatAscending(xs: seq<CandidatePair>, ys: seq<CandidatePair>, k: string)
    requires PairsAscending(xs) && PairsAscending(ys)
    requires forall x :: 0 <= x < |xs| ==> StrLess(xs[x].0, k)
    requires forall y :: 0 <= y < |ys| ==> ys[y].0 == k
    ensures PairsAscending(xs + ys)
  {
    var zs := xs + ys;
    forall x, y | 0 <= x < y < |zs| ensures PairBefore(zs[x], zs[y]) {
      if y < |xs| {
        assert zs[x] == xs[x] && zs[y] == xs[y];
      } else if x >= |xs| {
        assert zs[x] == ys[x - |xs|] && zs[y] == ys[y - |xs|];
      } else {
        assert zs[x] == xs[x] && zs[y] == ys[y - |xs|];
      }
    }
  }

  /** An ascending run stays ascending when a pair after all of it is
      appended. */
  lemma AppendAscending(xs: seq<CandidatePair>, q: CandidatePair)
    requires PairsAscending(xs)
    requires forall x :: 0 <= x < |xs| ==> PairBefore(xs[x], q)
    ensures PairsAscending(xs + [q])
  {
    var zs := xs + [q];
    forall x, y | 0 <= x < y < |zs| ensures PairBefore(zs[x], zs[y]) {
      assert zs[x] == xs[x];
    }
  }

  /** Every pair of row i starts with key i. */
  lemma RowFirst(keys: seq<string>, m: map<string, seq<U32>>, i: nat)
    requires KeysIn(keys, m) && i < |keys|
    ensures forall y :: 0 <= y < |Row(keys, m, i, |keys|)| ==> Row(keys, m, i, |keys|)[y].0 == keys[i]
  {
    var row := Row(keys, m, i, |keys|);
    forall y | 0 <= y < |row| ensures row[y].0 == keys[i] {
      RowOnly(keys, m, i, |keys|, row[y]);
    }
  }

  /** Every pair emitted before key i's pass starts with an earlier key. */
  lemma RowsBefore(keys: seq<string>, m: map<string, seq<U32>>, i: nat)
    requires KeysIn(keys, m) && Ascending(keys) && i < |keys|
    ensures forall x :: 0 <= x < |Rows(keys, m, i)| ==> StrLess(Rows(keys, m, i)[x].0, keys[i])
  {
    var prev := Rows(keys, m, i);
    forall x | 0 <= x < |prev| ensures StrLess(prev[x].0, keys[i]) {
      RowsOnly(keys, m, i, prev[x]);
      var a, b :| a < i && Emitted(keys, m, a, b, prev[x]);
      assert StrLess(keys[a], keys[i]);
    }
  }

  lemma {:induction false} RowAscending(keys: seq<string>, m: map<string, seq<U32>>, i: nat, j: nat)
    requires KeysIn(keys, m) && Ascending(keys) && i < |keys| && j <= |keys|
    ensures PairsAscending(Row(keys, m, i, j))
    decreases j
  {
    if j > i + 1 {
      RowAscending(keys, m, i, j - 1);
      RowSnoc(keys, m, i, j);
      var prev := Row(keys, m, i, j - 1);
      if ShareBand(m[keys[i]], m[keys[j - 1]]) {
        var q := (keys[i], keys[j - 1]);
        forall x | 0 <= x < |prev| ensures PairBefore(prev[x], q) {
          RowOnly(keys, m, i, j - 1, prev[x]);
          var b :| b < j - 1 && Emitted(keys, m, i, b, prev[x]);
          assert StrLess(keys[b], keys[j - 1]);
        }
        AppendAscending(prev, q);
      } else {
        assert Row(keys, m, i, j) == prev + [];
      }
    }
  }

  lemma {:induction false} RowsAscending(keys: seq<string>, m: map<string, seq<U32>>, i: nat)
    requires KeysIn(keys, m) && Ascending(keys) && i <= |keys|
    ensures PairsAscending(Rows(keys, m, i))
  {
    if i > 0 {
      RowsAscending(keys, m, i - 1);
      RowAscending(keys, m, i - 1, |keys|);
      RowsAscendingStep(keys, m, i);
    }
  }

  /** Key i - 1's pass appends pairs that sort after all earlier ones. */
  lemma RowsAscendingStep(keys: seq<string>, m: map<string, seq<U32>>, i: nat)
    requires KeysIn(keys, m) && Ascending(keys) && 0 < i <= |keys|
    requires PairsAscending(Rows(keys, m, i - 1)) && PairsAscending(Row(keys, m, i - 1, |keys|))
    ensures PairsAscending(Rows(keys, m, i))
  {
    RowsSnoc(keys, m, i);
    RowsBefore(keys, m, i - 1);
    RowFirst(keys, m, i - 1);
    ConcatAscending(Rows(keys, m, i - 1), Row(keys, m, i - 1, |keys|), keys[i - 1]);
  }

  // ------------------------------------------------------ the whole output

  lemma KeysReadable(m: map<string, seq<U32>>)
    requires BandsReadable(m)
    ensures Readable(Enumerate(m.Keys), m)
  {
    var keys := Enumerate(m.Keys);
    forall i, j | 0 <= i < j < |keys| ensures InBounds(m[keys[i]], m[keys[j]]) {
      assert keys[i] in m.Keys && keys[j] in m.Keys;
    }
  }

  /** A pair is a candidate exactly when both names are in the map, the first
      sorts before the second, and their band vectors agree somewhere. */
  lemma CandidatePairsMembers(m: map<string, seq<U32>>, p: CandidatePair)
    requires BandsReadable(m)
    ensures p in CandidatePairs(m) <==>
              p.0 in m && p.1 in m && StrLess(p.0, p.1) && ShareBand(m[p.0], m[p.1])
  {
    if p in CandidatePairs(m) {
      CandidatePairsSound(m, p);
    } else if p.0 in m && p.1 in m && StrLess(p.0, p.1) && ShareBand(m[p.0], m[p.1]) {
      CandidatePairsComplete(m, p);
    }
  }

  lemma CandidatePairsSound(m: map<string, seq<U32>>, p: CandidatePair)
    requires BandsReadable(m) && p in CandidatePairs(m)
    ensures p.0 in m && p.1 in m && StrLess(p.0, p.1) && ShareBand(m[p.0], m[p.1])
  {
    var keys := Enumerate(m.Keys);
    assert KeysIn(keys, m);
    RowsOnly(keys, m, |keys|, p);
    var a, b :| a < |keys| && Emitted(keys, m, a, b, p);
    assert StrLess(keys[a], keys[b]);
  }

  lemma CandidatePairsComplete(m: map<string, seq<U32>>, p: CandidatePair)
    requires BandsReadable(m)
    requires p.0 in m && p.1 in m && StrLess(p.0, p.1) && ShareBand(m[p.0], m[p.1])
    ensures p in CandidatePairs(m)
  {
    var keys := Enumerate(m.Keys);
    assert KeysIn(keys, m);
    assert p.0 in keys && p.1 in keys;
    var a :| 0 <= a < |keys| && keys[a] == p.0;
    var b :| 0 <= b < |keys| && keys[b] == p.1;
    AscendingOrder(keys, a, b);
    assert Emitted(keys, m, a, b, p);
    RowsHas(keys, m, |keys|, a, b, p);
  }

  /** The candidate pairs are exactly the pairs of distinct names, smaller
      name first, whose band vectors agree at some index; they come out in
      ascending order, so none appears twice or in both orders. */
  lemma CandidatePairsSpec(m: map<string, seq<U32>>)
    requires BandsReadable(m)
    ensures forall p :: p in CandidatePairs(m) <==>
              p.0 in m && p.1 in m && StrLess(p.0, p.1) && ShareBand(m[p.0], m[p.1])
    ensures PairsAscending(CandidatePairs(m))
    ensures forall x, y :: 0 <= x < y < |CandidatePairs(m)| ==> CandidatePairs(m)[x] != CandidatePairs(m)[y]
    ensures forall p :: p in CandidatePairs(m) ==> p.0 != p.1 && (p.1, p.0) !in CandidatePairs(m)
  {
    var keys := Enumerate(m.Keys);
    var cps := CandidatePairs(m);
    forall p ensures p in cps <==> p.0 in m && p.1 in m && StrLess(p.0, p.1) && ShareBand(m[p.0], m[p.1]) {
      CandidatePairsMembers(m, p);
    }
    assert KeysIn(keys, m);
    assert cps == Rows(keys, m, |keys|);
    RowsAscending(keys, m, |keys|);
    forall x, y | 0 <= x < y < |cps| ensures cps[x] != cps[y] {
      assert PairBefore(cps[x], cps[y]);
      StrLessIrreflexive(cps[x].0);
      StrLessIrreflexive(cps[x].1);
    }
    forall p | p in cps ensures p.0 != p.1 && (p.1, p.0) !in cps {
      StrLessIrreflexive(p.0);
      StrLessAsymmetric(p.0, p.1);
    }
  }
}
