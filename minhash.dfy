/** rp::MinHash: a per-instance family of universal hash functions, drawn
    lazily from a seeded engine, and MinHash signatures built with it. */
module MinHashing {
  import opened Common

  /** std::default_random_engine read through uniform_int_distribution
      <uint64_t> and <uint32_t> with their default full ranges. Both are
      implementation-defined, so the model takes as given the value that
      draw number `k` of an engine seeded with `seed` yields. */
  datatype RandomSource = RandomSource(draw64: (nat, nat) -> U64, draw32: (nat, nat) -> U32)

  /** The engine's state: its seed and the number of draws served so far. */
  datatype Engine = Engine(seed: nat, drawn: nat)

  function Next(e: Engine): Engine {
    Engine(e.seed, e.drawn + 1)
  }

  /** The coefficients are drawn alternately, a then b: pair i takes draws
      2i (64-bit) and 2i+1 (32-bit) of the engine. */
  function CoefficientA(source: RandomSource, seed: nat, i: nat): U64 {
    source.draw64(seed, 2 * i)
  }

  function CoefficientB(source: RandomSource, seed: nat, i: nat): U64 {
    source.draw32(seed, 2 * i + 1)
  }

  function CoefficientsA(source: RandomSource, seed: nat, n: nat): seq<U64> {
    seq(n, i requires 0 <= i < n => CoefficientA(source, seed, i))
  }

  function CoefficientsB(source: RandomSource, seed: nat, n: nat): seq<U64> {
    seq(n, i requires 0 <= i < n => CoefficientB(source, seed, i))
  }

  /** The universal hash of x under (a, b): a * x + b wraps at 64 bits and the
      shift by 64 - 32 keeps the high half, so the value fits 32 bits. */
  function UniversalHash(a: U64, b: U64, x: U64): U32 {
    var y := (a * x + b) % TWO_64;
    assert y / TWO_32 < TWO_32;
    y / TWO_32
  }

  /** Entry i of the vector random_uint32_universal_hash returns: entry 0 is
      the base hash truncated to 32 bits, entry i + 1 uses pair i. */
  function HashSlot(x: U64, a: seq<U64>, b: seq<U64>, i: nat): U32
    requires i <= |a| && |a| == |b|
  {
    if i == 0 then x % TWO_32 else UniversalHash(a[i - 1], b[i - 1], x)
  }

  function HashVector(x: U64, a: seq<U64>, b: seq<U64>): seq<U32>
    requires |a| == |b|
  {
    seq(|a| + 1, i requires 0 <= i <= |a| => HashSlot(x, a, b, i))
  }

  /** `sig` is the signature minhash_universal computes for `tokens` with the
      family (a, b): one slot per pair, slot i no larger than entry i of any
      token's hash vector, and either UINT32_MAX (the initial value) or equal
      to some token's entry i. Entry i, not i + 1: slot 0 is the truncated base
      hash and the last pair is never read. */
  ghost predicate IsSignatureOf(sig: seq<U32>, tokens: set<string>, xxh64: (string, nat) -> U64,
                                seed: nat, a: seq<U64>, b: seq<U64>)
    requires |a| == |b|
  {
    && |sig| == |a|
    && forall i :: 0 <= i < |sig| ==>
         && (forall t :: t in tokens ==> sig[i] <= HashSlot(xxh64(t, seed), a, b, i))
         && (sig[i] == UINT32_MAX || exists t :: t in tokens && sig[i] == HashSlot(xxh64(t, seed), a, b, i))
  }

  /** The empty token set has the all-UINT32_MAX signature, and no other. */
  lemma EmptySignature(sig: seq<U32>, xxh64: (string, nat) -> U64, seed: nat, a: seq<U64>, b: seq<U64>)
    requires |a| == |b|
    ensures IsSignatureOf(sig, {}, xxh64, seed, a, b) <==> sig == seq(|a|, _ => UINT32_MAX)
  {
  }

  /** A non-empty set attains every slot: slot i is the minimum, over the
      tokens, of entry i of their hash vectors. */
  lemma SignatureAttained(sig: seq<U32>, tokens: set<string>, xxh64: (string, nat) -> U64,
                          seed: nat, a: seq<U64>, b: seq<U64>, i: nat)
    requires |a| == |b| && IsSignatureOf(sig, tokens, xxh64, seed, a, b)
    requires tokens != {} && i < |sig|
    ensures exists t :: t in tokens && sig[i] == HashSlot(xxh64(t, seed), a, b, i)
    ensures forall t :: t in tokens ==> sig[i] <= HashSlot(xxh64(t, seed), a, b, i)
  {
    if sig[i] == UINT32_MAX {
      var t :| t in tokens;
      assert sig[i] <= HashSlot(xxh64(t, seed), a, b, i);
    }
  }

  /** The signature is a function of the token set: the order in which the
      tokens are visited cannot change it. */
  lemma SignatureUnique(s1: seq<U32>, s2: seq<U32>, tokens: set<string>, xxh64: (string, nat) -> U64,
                        seed: nat, a: seq<U64>, b: seq<U64>)
    requires |a| == |b|
    requires IsSignatureOf(s1, tokens, xxh64, seed, a, b) && IsSignatureOf(s2, tokens, xxh64, seed, a, b)
    ensures s1 == s2
  {
    forall i | 0 <= i < |s1| ensures s1[i] == s2[i] {
      assert s2[i] <= s1[i] by {
        if s1[i] != UINT32_MAX {
          var t :| t in tokens && s1[i] == HashSlot(xxh64(t, seed), a, b, i);
        }
      }
      assert s1[i] <= s2[i] by {
        if s2[i] != UINT32_MAX {
          var t :| t in tokens && s2[i] == HashSlot(xxh64(t, seed), a, b, i);
        }
      }
    }
  }

  /** More tokens can only lower a slot: a superset's signature is pointwise
      at most a subset's. */
  lemma SignatureAntitone(small: seq<U32>, large: seq<U32>, s: set<string>, l: set<string>,
                          xxh64: (string, nat) -> U64, seed: nat, a: seq<U64>, b: seq<U64>)
    requires |a| == |b| && s <= l
    requires IsSignatureOf(small, s, xxh64, seed, a, b) && IsSignatureOf(large, l, xxh64, seed, a, b)
    ensures forall i :: 0 <= i < |a| ==> large[i] <= small[i]
  {
    forall i | 0 <= i < |a| ensures large[i] <= small[i] {
      if small[i] != UINT32_MAX {
        var t :| t in s && small[i] == HashSlot(xxh64(t, seed), a, b, i);
        assert t in l;
      }
    }
  }

  /** Visiting one more token lowers each slot to that token's entry when
      the entry is smaller: the result is the signature of the larger set. */
  lemma SignatureAddToken(sig: seq<U32>, sig': seq<U32>, tokens: set<string>, t: string,
                          xxh64: (string, nat) -> U64, seed: nat, a: seq<U64>, b: seq<U64>)
    requires |a| == |b| && IsSignatureOf(sig, tokens, xxh64, seed, a, b) && |sig'| == |sig|
    requires forall i :: 0 <= i < |sig| ==>
               sig'[i] == if HashSlot(xxh64(t, seed), a, b, i) < sig[i] then HashSlot(xxh64(t, seed), a, b, i) else sig[i]
    ensures IsSignatureOf(sig', tokens + {t}, xxh64, seed, a, b)
  {
    forall i | 0 <= i < |sig'|
      ensures sig'[i] == UINT32_MAX || exists u :: u in tokens + {t} && sig'[i] == HashSlot(xxh64(u, seed), a, b, i)
    {
      if sig'[i] != UINT32_MAX && sig'[i] == sig[i] {
        var u :| u in tokens && sig[i] == HashSlot(xxh64(u, seed), a, b, i);
        assert u in tokens + {t};
      }
    }
  }

  /** Slot 0 reads no coefficient: it is the least 32-bit truncation of the
      tokens' base hashes under any family of the same length. */
  lemma SlotZeroIsTruncatedBaseHash(s1: seq<U32>, s2: seq<U32>, tokens: set<string>,
                                    xxh64: (string, nat) -> U64, seed: nat,
                                    a1: seq<U64>, b1: seq<U64>, a2: seq<U64>, b2: seq<U64>)
    requires |a1| == |b1| == |a2| == |b2| > 0
    requires IsSignatureOf(s1, tokens, xxh64, seed, a1, b1) && IsSignatureOf(s2, tokens, xxh64, seed, a2, b2)
    ensures s1[0] == s2[0]
    ensures forall t :: t in tokens ==> s1[0] <= xxh64(t, seed) % TWO_32
  {
    assert forall t :: HashSlot(xxh64(t, seed), a1, b1, 0) == HashSlot(xxh64(t, seed), a2, b2, 0);
    assert s2[0] <= s1[0] by {
      if s1[0] != UINT32_MAX {
        var t :| t in tokens && s1[0] == HashSlot(xxh64(t, seed), a1, b1, 0);
      }
    }
    assert s1[0] <= s2[0] by {
      if s2[0] != UINT32_MAX {
        var t :| t in tokens && s2[0] == HashSlot(xxh64(t, seed), a2, b2, 0);
      }
    }
  }

  /** The last coefficient pair is drawn but never read: replacing it leaves
      every signature as it was. */
  lemma LastPairUnused(sig: seq<U32>, tokens: set<string>, xxh64: (string, nat) -> U64, seed: nat,
                       a: seq<U64>, b: seq<U64>, lastA: U64, lastB: U64)
    requires |a| == |b| > 0
    ensures IsSignatureOf(sig, tokens, xxh64, seed, a, b)
        <==> IsSignatureOf(sig, tokens, xxh64, seed, a[..|a| - 1] + [lastA], b[..|b| - 1] + [lastB])
  {
    var a' := a[..|a| - 1] + [lastA];
    var b' := b[..|b| - 1] + [lastB];
    forall t, i | 0 <= i < |a|
      ensures HashSlot(xxh64(t, seed), a, b, i) == HashSlot(xxh64(t, seed), a', b', i)
    {
      if i > 0 { assert a[i - 1] == a'[i - 1] && b[i - 1] == b'[i - 1]; }
    }
  }

  class MinHash {
    /** The implementation-defined engine and distributions. */
    const source: RandomSource
    const sigLen: U32
    const seed: U32
    /** The coefficient cache; b has 64-bit storage but holds 32-bit draws. */
    var a: seq<U64>
    var b: seq<U64>
    var randEng: Engine

    /** The cache is empty or full, holds the pairs in the order they were
        drawn, and the engine has served exactly the draws that filled it. */
    ghost predicate Valid()
      reads this
    {
      && |a| == |b|
      && (|a| == 0 || |a| == sigLen)
      && randEng == Engine(seed, 2 * |a|)
      && forall i :: 0 <= i < |a| ==> a[i] == CoefficientA(source, seed, i) && b[i] == CoefficientB(source, seed, i)
    }

    /** The family has been drawn and from now on never changes. */
    ghost predicate Frozen()
      reads this
    {
      |a| == sigLen
    }

    constructor (source: RandomSource, sigLen: U32 := 100, seed: U32 := 0)
      ensures Valid()
      ensures this.source == source && this.sigLen == sigLen && this.seed == seed
      ensures a == [] && b == [] && randEng == Engine(seed, 0)
    {
      this.source := source;
      this.sigLen := sigLen;
      this.seed := seed;
      a, b := [], [];
      randEng := Engine(seed, 0);
    }

    /** The hash vector of base hash x, sigLen + 1 entries long; on the first
        call the cache grows to sigLen pairs, later calls leave it alone. */
    method RandomUint32UniversalHash(x: U64) returns (hv: seq<U32>)
      requires Valid()
      requires 0 < x < UINT64_MAX
      modifies this`a, this`b, this`randEng
      ensures Valid() && Frozen()
      ensures old(Frozen()) ==> a == old(a) && b == old(b) && randEng == old(randEng)
      ensures a == CoefficientsA(source, seed, sigLen) && b == CoefficientsB(source, seed, sigLen)
      ensures hv == HashVector(x, a, b)
    {
      hv := [x % TWO_32];
      var i := 0;
      while i < sigLen
        invariant 0 <= i <= sigLen
        invariant |a| == |b| && randEng == Engine(seed, 2 * |a|)
        invariant |a| == sigLen || |a| == i
        invariant forall k :: 0 <= k < |a| ==> a[k] == CoefficientA(source, seed, k) && b[k] == CoefficientB(source, seed, k)
        invariant old(Frozen()) ==> a == old(a) && b == old(b) && randEng == old(randEng)
        invariant |hv| == i + 1 && hv[0] == x % TWO_32
        invariant forall k :: 1 <= k <= i ==>
                    hv[k] == UniversalHash(CoefficientA(source, seed, k - 1), CoefficientB(source, seed, k - 1), x)
      {
        if |a| < sigLen {
          a := a + [source.draw64(randEng.seed, randEng.drawn)];
          randEng := Next(randEng);
          b := b + [source.draw32(randEng.seed, randEng.drawn)];
          randEng := Next(randEng);
        }
        var h := UniversalHash(a[i], b[i], x);
        hv := hv + [h];
        i := i + 1;
      }
    }

    /** minhash_universal: the signature of a token set, each token's base
        hash being XXH64 of the token under this instance's seed. */
    method MinhashUniversal(tokens: set<string>, xxh64: (string, nat) -> U64) returns (sig: seq<U32>)
      requires Valid()
      requires forall t :: t in tokens ==> 0 < xxh64(t, seed) < UINT64_MAX
      modifies this`a, this`b, this`randEng
      ensures Valid()
      ensures tokens != {} ==> Frozen()
      ensures old(Frozen()) || tokens == {} ==> a == old(a) && b == old(b) && randEng == old(randEng)
      ensures IsSignatureOf(sig, tokens, xxh64, seed, CoefficientsA(source, seed, sigLen), CoefficientsB(source, seed, sigLen))
    {
      ghost var fa, fb := CoefficientsA(source, seed, sigLen), CoefficientsB(source, seed, sigLen);
      sig := seq(sigLen, _ => UINT32_MAX);
      var rest := tokens;
      ghost var seen: set<string> := {};
      while rest != {}
        invariant rest + seen == tokens && rest !! seen
        invariant Valid()
        invariant seen != {} ==> Frozen()
        invariant old(Frozen()) || seen == {} ==> a == old(a) && b == old(b) && randEng == old(randEng)
        invariant IsSignatureOf(sig, seen, xxh64, seed, fa, fb)
        decreases rest
      {
        var s :| s in rest;
        var xxh := xxh64(s, seed);
        var rh := RandomUint32UniversalHash(xxh);
        assert forall k :: 0 <= k < sigLen ==> rh[k] == HashSlot(xxh, fa, fb, k);
        ghost var before := sig;
        sig := MinSlots(sig, rh);
        SignatureAddToken(before, sig, seen, s, xxh64, seed, fa, fb);
        rest := rest - {s};
        seen := seen + {s};
      }
    }

    /** The inner loop of minhash_universal: every slot lowered to the
        matching entry of the hash vector when that entry is smaller. */
    static method MinSlots(sig: seq<U32>, hv: seq<U32>) returns (sig': seq<U32>)
      requires |sig| <= |hv|
      ensures |sig'| == |sig|
      ensures forall k :: 0 <= k < |sig| ==> sig'[k] == if hv[k] < sig[k] then hv[k] else sig[k]
      ensures forall k :: 0 <= k < |sig| ==> sig'[k] <= sig[k] && sig'[k] <= hv[k]
    {
      sig' := sig;
      var i := 0;
      while i < |sig|
        invariant 0 <= i <= |sig| && |sig'| == |sig|
        invariant forall k :: 0 <= k < i ==> sig'[k] == if hv[k] < sig[k] then hv[k] else sig[k]
        invariant forall k :: i <= k < |sig| ==> sig'[k] == sig[k]
      {
        if hv[i] < sig'[i] {
          sig' := sig'[i := hv[i]];
        }
        i := i + 1;
      }
    }

    /** shash32: XXH32 of the string, under seed 0 unless another is given. */
    static function Shash32(xxh32: (string, nat) -> U32, s: string, seed: nat := 0): U32 {
      xxh32(s, seed)
    }
  }
}
