/** What LSH::compute_bands computes: each group of r consecutive signature
    values becomes one band, the shash32 of their decimal forms written one
    after the other. */
module Banding {
  import opened Common
  import opened Text
  import MinHashing

  /** The string built for a band: the values' decimal forms with no
      separator between them. */
  function Digits(vs: seq<U32>): string {
    if vs == [] then "" else Digits(vs[..|vs| - 1]) + Decimal(vs[|vs| - 1])
  }

  function BandHash(xxh32: (string, nat) -> U32, vs: seq<U32>): U32 {
    MinHashing.MinHash.Shash32(xxh32, Digits(vs))
  }

  /** The band vector of one signature with r values per band; values after
      the last whole band are dropped. An r of 0 is only harmless for the
      empty signature, which has no values to group. */
  function Bands(sig: seq<U32>, r: nat, xxh32: (string, nat) -> U32): seq<U32>
    requires r > 0 || sig == []
    decreases |sig|
  {
    if r == 0 || |sig| < r then [] else [BandHash(xxh32, sig[..r])] + Bands(sig[r..], r, xxh32)
  }

  /** The band map: every document's signature replaced by its bands. */
  function BandsMap(m: map<string, seq<U32>>, r: nat, xxh32: (string, nat) -> U32): map<string, seq<U32>>
    requires r > 0 || forall k :: k in m ==> m[k] == []
  {
    map k | k in m :: Bands(m[k], r, xxh32)
  }

  // ------------------------------------------------------ division helpers

  /** The nonlinear step of DivUnique, which the solver does not find
      unaided. */
  lemma MulAtLeast(d: int, r: int)
    requires d >= 1 && r > 0
    ensures d * r >= r
  {
    assert d * r == r + (d - 1) * r;
  }

  lemma DivUnique(n: int, r: int, q: int, m: int)
    requires r > 0 && 0 <= m < r && n == q * r + m
    ensures n / r == q && n % r == m
  {
    var q', m' := n / r, n % r;
    assert n == q' * r + m' && 0 <= m' < r;
    assert (q' - q) * r == q' * r - q * r;
    if q' > q {
      MulAtLeast(q' - q, r);
    } else if q' < q {
      MulAtLeast(q - q', r);
    }
  }

  lemma DivStep(n: nat, r: nat)
    requires r > 0 && n >= r
    ensures (n - r) / r + 1 == n / r
  {
    var q := (n - r) / r;
    var m := (n - r) % r;
    assert n == (q + 1) * r + m;
    DivUnique(n, r, q + 1, m);
  }

  // ---------------------------------------------------------------- lemmas

  /** One band per whole group of r values. */
  lemma {:induction false} BandsLength(sig: seq<U32>, r: nat, xxh32: (string, nat) -> U32)
    requires r > 0
    ensures |Bands(sig, r, xxh32)| == |sig| / r
    decreases |sig|
  {
    if |sig| >= r {
      BandsLength(sig[r..], r, xxh32);
      DivStep(|sig|, r);
    }
  }

  /** Where band k starts: k groups of r values. */
  function Offset(k: nat, r: nat): nat {
    if k == 0 then 0 else Offset(k - 1, r) + r
  }

  lemma {:induction false} OffsetIsProduct(k: nat, r: nat)
    ensures Offset(k, r) == k * r
  {
    if k > 0 {
      OffsetIsProduct(k - 1, r);
      assert k * r == (k - 1) * r + r;
    }
  }

  lemma {:induction false} BandAtOffset(sig: seq<U32>, r: nat, xxh32: (string, nat) -> U32, k: nat)
    requires r > 0 && Offset(k, r) + r <= |sig|
    ensures |Bands(sig, r, xxh32)| > k
    ensures Bands(sig, r, xxh32)[k] == BandHash(xxh32, sig[Offset(k, r)..Offset(k, r) + r])
  {
    if k > 0 {
      var lo := Offset(k - 1, r);
      var rest := sig[r..];
      assert Bands(sig, r, xxh32) == [BandHash(xxh32, sig[..r])] + Bands(rest, r, xxh32);
      BandAtOffset(rest, r, xxh32, k - 1);
      assert rest[lo..lo + r] == sig[lo + r..lo + r + r];
    }
  }

  /** Band k hashes exactly the values at positions k*r .. k*r + r - 1. */
  lemma BandAt(sig: seq<U32>, r: nat, xxh32: (string, nat) -> U32, k: nat)
    requires r > 0 && (k + 1) * r <= |sig|
    ensures |Bands(sig, r, xxh32)| > k
    ensures Bands(sig, r, xxh32)[k] == BandHash(xxh32, sig[k * r..k * r + r])
  {
    OffsetIsProduct(k, r);
    assert (k + 1) * r == k * r + r;
    BandAtOffset(sig, r, xxh32, k);
  }

  /** Appending one whole group after whole groups appends one band. */
  lemma {:induction false} BandsAppend(x: seq<U32>, y: seq<U32>, r: nat, q: nat, xxh32: (string, nat) -> U32)
    requires r > 0 && |x| == q * r && |y| == r
    ensures Bands(x + y, r, xxh32) == Bands(x, r, xxh32) + [BandHash(xxh32, y)]
    decreases q
  {
    if q == 0 {
      assert x + y == y && y[..r] == y && y[r..] == [];
    } else {
      assert |x[r..]| == (q - 1) * r;
      BandsAppend(x[r..], y, r, q - 1, xxh32);
      assert (x + y)[..r] == x[..r] && (x + y)[r..] == x[r..] + y;
    }
  }

  /** The digit string of a growing group gains the new value's digits. */
  lemma DigitsExtend(sig: seq<U32>, start: nat, i: nat)
    requires start <= i < |sig|
    ensures Digits(sig[start..i + 1]) == Digits(sig[start..i]) + Decimal(sig[i])
  {
    assert sig[start..i + 1][..i - start] == sig[start..i];
  }

  /** The 1-based position i + 1 closes a band exactly when the group that
      began at start, a multiple of r, has reached r values. */
  lemma ClosesBand(i: nat, start: nat, q: nat, r: nat)
    requires r > 0 && start == q * r && start <= i < start + r
    ensures (i + 1) % r == 0 <==> i + 1 - start == r
    ensures i + 1 - start == r ==> i + 1 == (q + 1) * r
  {
    if i + 1 - start < r {
      DivUnique(i + 1, r, q, i + 1 - start);
    } else {
      assert i + 1 == (q + 1) * r;
      DivUnique(i + 1, r, q + 1, 0);
    }
  }

  /** Closing the group sig[start..i + 1] appends its band. */
  lemma BandsExtend(sig: seq<U32>, start: nat, i: nat, r: nat, q: nat, xxh32: (string, nat) -> U32)
    requires r > 0 && start == q * r && i < |sig| && i + 1 - start == r
    ensures Bands(sig[..i + 1], r, xxh32) == Bands(sig[..start], r, xxh32) + [BandHash(xxh32, sig[start..i + 1])]
  {
    BandsAppend(sig[..start], sig[start..i + 1], r, q, xxh32);
    assert sig[..start] + sig[start..i + 1] == sig[..i + 1];
  }

  /** One step of compute_bands' inner loop over value i, with the open
      group starting at start = q * r: the group's digits grow by value i's,
      and position i + 1 closes a band exactly when the group is full. */
  lemma BandLoopStep(sig: seq<U32>, start: nat, i: nat, r: nat, q: nat, xxh32: (string, nat) -> U32)
    requires r > 0 && start == q * r && start <= i < |sig| && i - start < r
    ensures Digits(sig[start..i + 1]) == Digits(sig[start..i]) + Decimal(sig[i])
    ensures (i + 1) % r != 0 ==> i + 1 - start < r
    ensures (i + 1) % r == 0 ==> i + 1 == (q + 1) * r
    ensures (i + 1) % r == 0 ==>
              Bands(sig[..i + 1], r, xxh32) == Bands(sig[..start], r, xxh32) + [BandHash(xxh32, sig[start..i + 1])]
  {
    DigitsExtend(sig, start, i);
    ClosesBand(i, start, q, r);
    if (i + 1) % r == 0 {
      BandsExtend(sig, start, i, r, q, xxh32);
    }
  }

  /** The state of compute_bands' inner loop after i values: the bands of
      the first start values are closed, and s holds the digits of the open
      group sig[start..i], which is shorter than a band. */
  ghost predicate BandLoop(sig: seq<U32>, r: nat, xxh32: (string, nat) -> U32,
                           i: nat, start: nat, bh: seq<U32>, s: string)
  {
    && (r > 0 || sig == [])
    && start <= i <= |sig| && (i - start < r || sig == [])
    && start == |bh| * r
    && bh == Bands(sig[..start], r, xxh32)
    && s == Digits(sig[start..i])
  }

  /** Reading value i keeps the loop state: every r-th value closes the open
      group into one band and empties s; any other value joins the group. */
  lemma BandLoopNext(sig: seq<U32>, r: nat, xxh32: (string, nat) -> U32,
                     i: nat, start: nat, bh: seq<U32>, s: string)
    requires BandLoop(sig, r, xxh32, i, start, bh, s) && i < |sig|
    ensures r > 0
    ensures (i + 1) % r == 0 ==>
              BandLoop(sig, r, xxh32, i + 1, i + 1, bh + [MinHashing.MinHash.Shash32(xxh32, s + Decimal(sig[i]))], "")
    ensures (i + 1) % r != 0 ==> BandLoop(sig, r, xxh32, i + 1, start, bh, s + Decimal(sig[i]))
  {
    BandLoopStep(sig, start, i, r, |bh|, xxh32);
  }

  /** At the end of the signature the closed bands are all of them. */
  lemma BandLoopDone(sig: seq<U32>, r: nat, xxh32: (string, nat) -> U32, start: nat, bh: seq<U32>, s: string)
    requires BandLoop(sig, r, xxh32, |sig|, start, bh, s)
    ensures bh == Bands(sig, r, xxh32)
  {
    if r > 0 {
      BandsIgnoreTail(sig[..start], sig[start..], r, |bh|, xxh32);
      assert sig[..start] + sig[start..] == sig;
    }
  }

  /** Values that do not fill a last band leave the band vector unchanged. */
  lemma {:induction false} BandsIgnoreTail(x: seq<U32>, tail: seq<U32>, r: nat, q: nat, xxh32: (string, nat) -> U32)
    requires r > 0 && |x| == q * r && |tail| < r
    ensures Bands(x + tail, r, xxh32) == Bands(x, r, xxh32)
    decreases q
  {
    if q == 0 {
      assert x + tail == tail;
    } else {
      assert |x[r..]| == (q - 1) * r;
      BandsIgnoreTail(x[r..], tail, r, q - 1, xxh32);
      assert (x + tail)[..r] == x[..r] && (x + tail)[r..] == x[r..] + tail;
    }
  }

  /** A signature of sig_len values with sig_len divisible by lsh_bands has
      exactly lsh_bands bands. */
  lemma BandsOfFullSignature(sig: seq<U32>, sigLen: nat, lshBands: nat, xxh32: (string, nat) -> U32)
    requires 0 < lshBands && sigLen % lshBands == 0 && 0 < sigLen && |sig| == sigLen
    ensures sigLen / lshBands > 0
    ensures |Bands(sig, sigLen / lshBands, xxh32)| == lshBands
  {
    var r := sigLen / lshBands;
    assert sigLen == lshBands * r + 0;
    DivUnique(sigLen, lshBands, r, 0);
    BandsLength(sig, r, xxh32);
    DivUnique(sigLen, r, lshBands, 0);
  }

  /** The concatenation has no separator, so different band contents can hash
      alike: [12, 3] and [1, 23] both become "123". */
  lemma BandsCanCollide(xxh32: (string, nat) -> U32)
    ensures var x: seq<U32>, y: seq<U32> := [12, 3], [1, 23];
            x != y && Bands(x, 2, xxh32) == Bands(y, 2, xxh32)
  {
    var x: seq<U32>, y: seq<U32> := [12, 3], [1, 23];
    assert Decimal(12) == "12" && Decimal(23) == "23" && Decimal(1) == "1" && Decimal(3) == "3";
    assert x[..1] == [12] && x[..0] == [] && y[..1] == [1] && y[..0] == [];
    assert Digits(x) == "123" == Digits(y);
    assert x[..2] == x && y[..2] == y && x[2..] == [] && y[2..] == [];
    assert Bands(x, 2, xxh32) == [BandHash(xxh32, x)];
    assert Bands(y, 2, xxh32) == [BandHash(xxh32, y)];
    assert x[0] != y[0];
  }
}
