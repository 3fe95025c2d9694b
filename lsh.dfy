/** rp::LSH: a corpus of documents, their MinHash signatures, the bands
    built from them, the candidate pairs the bands reveal and the two
    similarity estimates of each pair. Each compute step reads the fields the
    previous steps left and overwrites exactly one field. */
module Lsh {
  import opened Common
  import opened Text
  import opened MinHashing
  import opened Banding
  import opened Candidates
  import opened Similarity
  import opened NGrams

  /** lsh.hpp's type aliases. */
  type MinHashMap = map<string, seq<U32>>
  type BandsHashMap = MinHashMap
  type NGramSet = set<string>
  type CorpusNGramsMap = map<string, NGramSet>

  /** Band vectors of one common length can always be compared, which is
      what every map compute_bands builds from one object's signatures has. */
  lemma EqualLengthsReadable(m: BandsHashMap, len: nat)
    requires forall k :: k in m ==> |m[k]| == len
    ensures BandsReadable(m)
  {
  }

  class LSH {
    const minhashSigLen: U32
    const lshBands: U32
    const ngramLen: U32
    const seed: U32
    /** XXH64 and XXH32, as the library computes them. */
    const xxh64: (string, nat) -> U64
    const xxh32: (string, nat) -> U32
    const mh: MinHash

    var mhMap: MinHashMap
    var bhMap: BandsHashMap
    var ngMap: CorpusNGramsMap
    var cpVect: seq<CandidatePair>
    var mhSimVect: seq<Fraction>
    var ngSimVect: seq<Fraction>

    /** The MinHash engine is built with this object's length and seed, every
        stored signature has that length, and n-grams are only kept for
        documents that were signed. */
    ghost predicate Valid()
      reads this, mh
    {
      && mh.Valid() && mh.sigLen == minhashSigLen && mh.seed == seed
      && (forall k :: k in mhMap ==> |mhMap[k]| == minhashSigLen as int)
      && ngMap.Keys <= mhMap.Keys
    }

    /** The signature a document with these n-grams gets from this object. */
    ghost predicate SignedAs(sig: seq<U32>, ngrams: set<string>) {
      IsSignatureOf(sig, ngrams, xxh64, seed,
                    CoefficientsA(mh.source, seed, minhashSigLen), CoefficientsB(mh.source, seed, minhashSigLen))
    }

    constructor (source: RandomSource, xxh64: (string, nat) -> U64, xxh32: (string, nat) -> U32,
                 minhashSigLen: U32 := 240, lshBands: U32 := 80, ngramLen: U32 := 1, seed: U32 := 0)
      ensures Valid() && fresh(mh)
      ensures this.minhashSigLen == minhashSigLen && this.lshBands == lshBands
      ensures this.ngramLen == ngramLen && this.seed == seed
      ensures this.xxh64 == xxh64 && this.xxh32 == xxh32
      ensures mh.source == source && mh.a == [] && mh.b == []
      ensures mhMap == map[] && bhMap == map[] && ngMap == map[]
      ensures cpVect == [] && mhSimVect == [] && ngSimVect == []
    {
      this.minhashSigLen := minhashSigLen;
      this.lshBands := lshBands;
      this.ngramLen := ngramLen;
      this.seed := seed;
      this.xxh64 := xxh64;
      this.xxh32 := xxh32;
      mh := new MinHash(source, minhashSigLen, seed);
      mhMap, bhMap, ngMap := map[], map[], map[];
      cpVect, mhSimVect, ngSimVect := [], [], [];
    }

    // -------------------------------------------------------------- getters

    function GetCorpusNgrams(): CorpusNGramsMap reads this { ngMap }
    function GetMinhashSignatures(): MinHashMap reads this { mhMap }
    function GetLshBands(): BandsHashMap reads this { bhMap }
    function GetCandidatePairs(): seq<CandidatePair> reads this { cpVect }
    function GetMinhashSimilarities(): seq<Fraction> reads this { mhSimVect }
    function GetNgramSimilarities(): seq<Fraction> reads this { ngSimVect }

    // ------------------------------------------------------------ tokenizer

    /** load_ngrams_from_file over the file's lines. */
    static method LoadNGrams(lines: seq<string>, ngramLen: U32) returns (ngrams: NGramSet)
      ensures ngrams == Tokenize(lines, ngramLen as nat)
    {
      var n := ngramLen as nat;
      ngrams := {};
      var prevLine := "";
      var lastNgram: seq<string> := [];
      var l := 0;
      while l < |lines|
        invariant 0 <= l <= |lines|
        invariant Run(lines[..l], n) == Tokenizer(ngrams, Carry(lastNgram, prevLine))
      {
        RunPrefix(lines, l, n);
        ngrams, lastNgram, prevLine := ReadLine(ngrams, lastNgram, prevLine, lines[l], n);
        l := l + 1;
      }
      assert lines[..|lines|] == lines;
    }

    /** The body of the line loop. */
    static method ReadLine(ngrams: NGramSet, lastNgram: seq<string>, prevLine: string, raw: string, n: nat)
      returns (ngrams': NGramSet, lastNgram': seq<string>, prevLine': string)
      ensures Tokenizer(ngrams', Carry(lastNgram', prevLine'))
              == Step(Tokenizer(ngrams, Carry(lastNgram, prevLine)), raw, n)
    {
      ghost var st := Tokenizer(ngrams, Carry(lastNgram, prevLine));
      ngrams', lastNgram', prevLine' := ngrams, lastNgram, prevLine;
      var line := Trim(raw);
      if |line| == 0 {
        StepBlank(st, raw, n);
        return;
      }
      line := PrefixLine(line, lastNgram, prevLine, n);
      var tokens := Split(line);
      if |tokens| >= n {
        StepFull(st, raw, n, tokens);
        ngrams' := AddWindows(ngrams, tokens, n);
        lastNgram' := tokens[|tokens| - n..];
        prevLine' := "";
      } else {
        StepShort(st, raw, n, line);
        prevLine' := line;
        lastNgram' := [];
      }
    }

    /** The carry put in front of a trimmed, non-blank line. */
    static method PrefixLine(line: string, lastNgram: seq<string>, prevLine: string, n: nat) returns (full: string)
      ensures full == Prefixed(line, Carry(lastNgram, prevLine), n)
    {
      full := line;
      if n > 1 && lastNgram != [] {
        var lastNgramStr := "";
        var i := 1;
        while i < |lastNgram|
          invariant 1 <= i <= |lastNgram|
          invariant lastNgramStr == JoinSpaced(lastNgram[1..i])
        {
          assert lastNgram[1..i + 1][..i - 1] == lastNgram[1..i];
          lastNgramStr := lastNgramStr + lastNgram[i] + " ";
          i := i + 1;
        }
        assert lastNgram[1..i] == lastNgram[1..];
        full := lastNgramStr + line;
      } else if prevLine != "" {
        full := prevLine + " " + line;
      }
    }

    /** Every window of n tokens, added to the set. */
    static method AddWindows(ngrams: NGramSet, tokens: seq<string>, n: nat) returns (ngrams': NGramSet)
      requires |tokens| >= n
      ensures ngrams' == ngrams + Windows(tokens, n)
    {
      ngrams' := ngrams;
      var i := 0;
      while i < |tokens| - n + 1
        invariant 0 <= i <= |tokens| - n + 1
        invariant ngrams' == ngrams + ImageBelow(WindowAt(tokens, n), i)
      {
        var ngram := BuildNgram(tokens, n, i);
        assert ngram == WindowAt(tokens, n)(i);
        ImageBelowStep(WindowAt(tokens, n), i);
        ngrams' := ngrams' + {ngram};
        i := i + 1;
      }
    }

    /** The n-gram starting at token i: each token and a space, trimmed. */
    static method BuildNgram(tokens: seq<string>, n: nat, i: nat) returns (ngram: string)
      requires i + n <= |tokens|
      ensures ngram == Window(tokens, n, i)
    {
      ngram := "";
      var j := i;
      while j < i + n
        invariant i <= j <= i + n
        invariant ngram == JoinSpaced(tokens[i..j])
      {
        assert tokens[i..j + 1][..j - i] == tokens[i..j];
        ngram := ngram + tokens[j] + " ";
        j := j + 1;
      }
      ngram := Trim(ngram);
    }

    // --------------------------------------------------------------- corpus

    /** One iteration of minhash_corpus: the document's n-grams are signed
        and the signature is stored unless the name is already there (a map
        insert never overwrites); the n-grams are stored likewise when they
        are to be kept. */
    method InsertDocument(name: string, lines: seq<string>, keepNgrams: bool)
      requires Valid()
      requires forall t :: t in Tokenize(lines, ngramLen as nat) ==> 0 < xxh64(t, seed) < UINT64_MAX
      modifies this`mhMap, this`ngMap, mh`a, mh`b, mh`randEng
      ensures Valid()
      ensures mhMap.Keys == old(mhMap.Keys) + {name}
      ensures forall k :: k in old(mhMap) ==> mhMap[k] == old(mhMap)[k]
      ensures name !in old(mhMap) ==> SignedAs(mhMap[name], Tokenize(lines, ngramLen as nat))
      ensures ngMap == if keepNgrams && name !in old(ngMap) then old(ngMap)[name := Tokenize(lines, ngramLen as nat)]
                       else old(ngMap)
    {
      var ngrams := LoadNGrams(lines, ngramLen);
      var sig := Sign(ngrams);
      Store(name, sig, ngrams, keepNgrams);
    }

    /** The MinHash signature of one document's n-grams. */
    method Sign(ngrams: NGramSet) returns (sig: seq<U32>)
      requires Valid()
      requires forall t :: t in ngrams ==> 0 < xxh64(t, seed) < UINT64_MAX
      modifies mh`a, mh`b, mh`randEng
      ensures Valid()
      ensures SignedAs(sig, ngrams) && |sig| == minhashSigLen as int
    {
      sig := mh.MinhashUniversal(ngrams, xxh64);
    }

    /** The two map inserts of one document; neither overwrites. */
    method Store(name: string, sig: seq<U32>, ngrams: NGramSet, keepNgrams: bool)
      requires Valid() && |sig| == minhashSigLen as int
      modifies this`mhMap, this`ngMap
      ensures Valid()
      ensures mhMap == if name in old(mhMap) then old(mhMap) else old(mhMap)[name := sig]
      ensures ngMap == if keepNgrams && name !in old(ngMap) then old(ngMap)[name := ngrams] else old(ngMap)
    {
      if name !in mhMap {
        mhMap := mhMap[name := sig];
      }
      if keepNgrams && name !in ngMap {
        ngMap := ngMap[name := ngrams];
      }
    }

    // ---------------------------------------------------------------- bands

    /** compute_bands (the static one): every signature replaced by its band
        vector, with sigLen / numBands values per band. */
    static method ComputeBandsOf(mhMap: MinHashMap, sigLen: U32, numBands: U32, xxh32: (string, nat) -> U32)
      returns (bhMap: BandsHashMap)
      requires numBands > 0 && sigLen % numBands == 0
      requires sigLen / numBands == 0 ==> forall k :: k in mhMap ==> mhMap[k] == []
      ensures bhMap == BandsMap(mhMap, (sigLen / numBands) as nat, xxh32)
    {
      var r := sigLen / numBands;
      bhMap := map[];
      var rest := mhMap.Keys;
      while rest != {}
        invariant rest <= mhMap.Keys
        invariant bhMap.Keys == mhMap.Keys - rest
        invariant forall k :: k in bhMap ==> bhMap[k] == Bands(mhMap[k], r as nat, xxh32)
        decreases rest
      {
        var k :| k in rest;
        var bh := BandHashes(mhMap[k], r as nat, xxh32);
        bhMap := bhMap[k := bh];
        rest := rest - {k};
      }
    }

    /** The inner loop of compute_bands: the decimal forms accumulate in s
        and every r-th value closes a band. */
    static method BandHashes(sig: seq<U32>, r: nat, xxh32: (string, nat) -> U32) returns (bh: seq<U32>)
      requires r > 0 || sig == []
      ensures bh == Bands(sig, r, xxh32)
    {
      var s := "";
      bh := [];
      var index := 1;
      ghost var start := 0;
      var i := 0;
      while i < |sig|
        invariant index == i + 1
        invariant BandLoop(sig, r, xxh32, i, start, bh, s)
      {
        BandLoopNext(sig, r, xxh32, i, start, bh, s);
        s := s + Decimal(sig[i]);
        if index % r == 0 {
          bh := bh + [MinHash.Shash32(xxh32, s)];
          s := "";
          start := i + 1;
        }
        index := index + 1;
        i := i + 1;
      }
      BandLoopDone(sig, r, xxh32, start, bh, s);
    }

    // ------------------------------------------------------ candidate pairs

    /** The keys of a map in the order std::map iterates them. */
    static method OrderedKeys(m: BandsHashMap) returns (keys: seq<string>)
      ensures keys == Enumerate(m.Keys)
    {
      keys := [];
      var rest := m.Keys;
      while rest != {}
        invariant rest <= m.Keys
        invariant forall k :: k in keys <==> k in m.Keys && k !in rest
        invariant Ascending(keys)
        invariant forall i, k :: 0 <= i < |keys| && k in rest ==> StrLess(keys[i], k)
        decreases rest
      {
        LeastExists(rest);
        var least :| least in rest && IsLeast(least, rest);
        keys := keys + [least];
        rest := rest - {least};
      }
      AscendingUnique(keys, Enumerate(m.Keys));
    }

    /** compute_candidate_pairs (the static one). The map must not be empty
        (keys.size() - 1 would wrap around) and every band read must stay in
        bounds. */
    static method ComputeCandidatePairsOf(bhMap: BandsHashMap) returns (cpv: seq<CandidatePair>)
      requires |bhMap| > 0 && BandsReadable(bhMap)
      ensures cpv == CandidatePairs(bhMap)
    {
      var keys := OrderedKeys(bhMap);
      KeysReadable(bhMap);
      cpv := [];
      var i := 0;
      while i < |keys| - 1
        invariant 0 <= i <= |keys| - 1
        invariant cpv == Rows(keys, bhMap, i)
      {
        var row := CandidateRow(keys, bhMap, i);
        RowsSnoc(keys, bhMap, i + 1);
        cpv := cpv + row;
        i := i + 1;
      }
      RowsSnoc(keys, bhMap, |keys|);
      assert Row(keys, bhMap, |keys| - 1, |keys|) == [];
    }

    /** The middle loop for one i: keys[i] against every later key. */
    static method CandidateRow(keys: seq<string>, bhMap: BandsHashMap, i: nat) returns (row: seq<CandidatePair>)
      requires Readable(keys, bhMap) && i < |keys|
      ensures row == Row(keys, bhMap, i, |keys|)
    {
      row := [];
      var j := i + 1;
      while j < |keys|
        invariant i + 1 <= j <= |keys|
        invariant row == Row(keys, bhMap, i, j)
      {
        RowSnoc(keys, bhMap, i, j + 1);
        var found := ScanBands(bhMap[keys[i]], bhMap[keys[j]]);
        if found {
          row := row + [(keys[i], keys[j])];
        }
        j := j + 1;
      }
    }

    /** The innermost loop: scan u's bands for one equal to v's at the same
        index, stopping at the first. */
    static method ScanBands(u: seq<U32>, v: seq<U32>) returns (found: bool)
      requires InBounds(u, v)
      ensures found == ShareBand(u, v)
    {
      found := false;
      var k := 0;
      while k < |u|
        invariant 0 <= k <= |u|
        invariant forall q :: 0 <= q < k ==> q < |v| && u[q] != v[q]
      {
        if u[k] == v[k] {
          found := true;
          break;
        }
        k := k + 1;
      }
    }

    // --------------------------------------------------------- similarities

    /** compute_minhash_similarities (the static one); a name missing from
        the map is the exception std::map::at throws. */
    static method ComputeMinhashSimilaritiesOf(mhMap: MinHashMap, cpv: seq<CandidatePair>)
      returns (r: Result<seq<Fraction>, string>)
      requires Comparable(mhMap, cpv)
      ensures MinhashSimilaritiesOf(mhMap, cpv, r)
    {
      var jsVect: seq<Fraction> := [];
      var c := 0;
      while c < |cpv|
        invariant 0 <= c <= |cpv| && |jsVect| == c
        invariant forall i :: 0 <= i < c ==> Present(mhMap, cpv[i])
        invariant forall i :: 0 <= i < c ==> jsVect[i] == MinhashSimilarity(mhMap[cpv[i].0], mhMap[cpv[i].1])
      {
        var cp := cpv[c];
        if cp.0 !in mhMap || cp.1 !in mhMap {
          assert FailsAt(mhMap, cpv, c);
          return Failure(MissingName(mhMap, cp));
        }
        var u, v := mhMap[cp.0], mhMap[cp.1];
        assert Present(mhMap, cpv[c]);
        var common := CountMatches(u, v);
        jsVect := jsVect + [Fraction(common, |u|)];
        c := c + 1;
      }
      return Success(jsVect);
    }

    /** The loop over the first signature's indices counting the positions
        where the two signatures agree. */
    static method CountMatches(u: seq<U32>, v: seq<U32>) returns (common: nat)
      requires |u| <= |v|
      ensures common == MatchCount(u, v)
    {
      common := 0;
      var i := 0;
      while i < |u|
        invariant 0 <= i <= |u| && common == MatchCount(u[..i], v)
      {
        assert u[..i + 1][..i] == u[..i];
        if u[i] == v[i] {
          common := common + 1;
        }
        i := i + 1;
      }
      assert u[..|u|] == u;
    }

    /** compute_ngram_similarities (the static one): intersection size over
        union size, per pair. */
    static method ComputeNgramSimilaritiesOf(ngMap: CorpusNGramsMap, cpv: seq<CandidatePair>)
      returns (r: Result<seq<Fraction>, string>)
      ensures NgramSimilaritiesOf(ngMap, cpv, r)
    {
      var jsVect: seq<Fraction> := [];
      var c := 0;
      while c < |cpv|
        invariant 0 <= c <= |cpv| && |jsVect| == c
        invariant forall i :: 0 <= i < c ==> Present(ngMap, cpv[i])
        invariant forall i :: 0 <= i < c ==> jsVect[i] == Jaccard(ngMap[cpv[i].0], ngMap[cpv[i].1])
      {
        var cp := cpv[c];
        if cp.0 !in ngMap || cp.1 !in ngMap {
          assert FailsAt(ngMap, cpv, c);
          return Failure(MissingName(ngMap, cp));
        }
        var v1, v2 := ngMap[cp.0], ngMap[cp.1];
        var vInt, vUni := v1 * v2, v1 + v2;
        jsVect := jsVect + [Fraction(|vInt|, |vUni|)];
        c := c + 1;
      }
      return Success(jsVect);
    }

    // ------------------------------------------------------ pipeline steps

    /** compute_bands (the member): overwrites bh_map only. */
    method ComputeBands()
      requires Valid() && lshBands > 0 && minhashSigLen % lshBands == 0
      modifies this`bhMap
      ensures bhMap == BandsMap(mhMap, (minhashSigLen / lshBands) as nat, xxh32)
      ensures minhashSigLen > 0 ==> forall k :: k in bhMap ==> |bhMap[k]| == lshBands as int
      ensures BandsReadable(bhMap)
    {
      bhMap := ComputeBandsOf(mhMap, minhashSigLen, lshBands, xxh32);
      var r := (minhashSigLen / lshBands) as nat;
      if minhashSigLen > 0 {
        forall k | k in bhMap ensures |bhMap[k]| == lshBands as int {
          BandsOfFullSignature(mhMap[k], minhashSigLen as nat, lshBands as nat, xxh32);
        }
      } else {
        assert forall k :: k in bhMap ==> bhMap[k] == [];
      }
      EqualLengthsReadable(bhMap, if minhashSigLen > 0 then lshBands as nat else 0);
    }

    /** compute_candidate_pairs (the member): overwrites cp_vect only. */
    method ComputeCandidatePairs()
      requires |bhMap| > 0 && BandsReadable(bhMap)
      modifies this`cpVect
      ensures cpVect == CandidatePairs(bhMap)
    {
      cpVect := ComputeCandidatePairsOf(bhMap);
    }

    /** compute_minhash_similarities (the member): overwrites mh_sim_vect
        only, and on a missing name leaves it as it was. */
    method ComputeMinhashSimilarities() returns (missing: Option<string>)
      requires Valid()
      modifies this`mhSimVect
      ensures Comparable(mhMap, cpVect)
      ensures missing.None? ==> MinhashSimilaritiesOf(mhMap, cpVect, Success(mhSimVect))
      ensures missing.Some? ==> mhSimVect == old(mhSimVect)
                                && MinhashSimilaritiesOf(mhMap, cpVect, Failure(missing.value))
    {
      assert Comparable(mhMap, cpVect);
      var r := ComputeMinhashSimilaritiesOf(mhMap, cpVect);
      if r.Success? {
        mhSimVect := r.value;
        missing := None;
      } else {
        missing := Some(r.error);
      }
    }

    /** compute_ngram_similarities (the member): overwrites ng_sim_vect
        only, and on a missing name leaves it as it was. */
    method ComputeNgramSimilarities() returns (missing: Option<string>)
      modifies this`ngSimVect
      ensures missing.None? ==> NgramSimilaritiesOf(ngMap, cpVect, Success(ngSimVect))
      ensures missing.Some? ==> ngSimVect == old(ngSimVect)
                                && NgramSimilaritiesOf(ngMap, cpVect, Failure(missing.value))
    {
      var r := ComputeNgramSimilaritiesOf(ngMap, cpVect);
      if r.Success? {
        ngSimVect := r.value;
        missing := None;
      } else {
        missing := Some(r.error);
      }
    }
  }
}
