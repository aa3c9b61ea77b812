/** The memo cache of checkSingle (porcupine/checker.go): buckets of (bitset, state) entries keyed by
    the bitset's hash, which answers exactly like one flat set of pairs. */
module MemoCache {
  import opened Histories
  import opened Bitset

  datatype CacheEntry<S> = CacheEntry(linearized: seq<Word>, state: S)

  type Cache<S> = map<Word, seq<CacheEntry<S>>>

  /** Every entry is in the bucket of its hash, and all bitsets have the same size. */
  ghost predicate Bucketed<S>(cache: Cache<S>, chunks: nat) {
    forall h, i :: h in cache && 0 <= i < |cache[h]| ==>
      HashOf(cache[h][i].linearized) == h && |cache[h][i].linearized| == chunks
  }

  ghost function Pair<S>(e: CacheEntry<S>): (set<nat>, S) {
    (Elems(e.linearized), e.state)
  }

  /** The cached pairs, whatever their bucket. */
  ghost function Flat<S>(cache: Cache<S>): set<(set<nat>, S)> {
    set h, i | h in cache && 0 <= i < |cache[h]| :: Pair(cache[h][i])
  }

  ghost predicate Has<S, I, O>(m: Model<S, I, O>, pairs: set<(set<nat>, S)>, done: set<nat>, s: S) {
    exists p :: p in pairs && p.0 == done && m.equal(s, p.1)
  }

  function HashBucket<S>(cache: Cache<S>, h: Word): seq<CacheEntry<S>> {
    if h in cache then cache[h] else []
  }

  /** Looking only in one bucket misses nothing. */
  lemma BucketComplete<S>(cache: Cache<S>, linearized: seq<Word>, p: (set<nat>, S))
    requires Bucketed(cache, |linearized|) && p in Flat(cache) && p.0 == Elems(linearized)
    ensures exists i :: 0 <= i < |HashBucket(cache, HashOf(linearized))| &&
              Pair(HashBucket(cache, HashOf(linearized))[i]) == p
  {
    var h, i :| h in cache && 0 <= i < |cache[h]| && Pair(cache[h][i]) == p;
    ElemsExtensional(cache[h][i].linearized, linearized);
    assert Pair(HashBucket(cache, HashOf(linearized))[i]) == p;
  }

  method CacheContains<S, I, O>(m: Model<S, I, O>, cache: Cache<S>, linearized: array<Word>, state: S) returns (r: bool)
    requires Bucketed(cache, linearized.Length)
    ensures r <==> Has(m, Flat(cache), Elems(linearized[..]), state)
  {
    var h := Hash(linearized);
    var bucket := HashBucket(cache, h);
    ghost var done := Elems(linearized[..]);
    for i := 0 to |bucket|
      invariant forall j :: 0 <= j < i ==> !(Pair(bucket[j]).0 == done && m.equal(state, bucket[j].state))
    {
      var same := Equals(linearized, bucket[i].linearized);
      if same && m.equal(state, bucket[i].state) {
        assert Pair(bucket[i]) in Flat(cache);
        return true;
      }
    }
    forall p | p in Flat(cache) && p.0 == done ensures !m.equal(state, p.1) {
      BucketComplete(cache, linearized[..], p);
    }
    return false;
  }

  function Insert<S>(cache: Cache<S>, h: Word, e: CacheEntry<S>): Cache<S> {
    cache[h := HashBucket(cache, h) + [e]]
  }

  /** Appending an entry to its bucket adds exactly its pair. */
  lemma InsertAdds<S>(cache: Cache<S>, e: CacheEntry<S>)
    requires Bucketed(cache, |e.linearized|)
    ensures Bucketed(Insert(cache, HashOf(e.linearized), e), |e.linearized|)
    ensures Flat(Insert(cache, HashOf(e.linearized), e)) == Flat(cache) + {Pair(e)}
  {
    var h := HashOf(e.linearized);
    var cache' := Insert(cache, h, e);
    var n := |HashBucket(cache, h)|;
    assert cache'[h][n] == e;
    forall p | p in Flat(cache) ensures p in Flat(cache') {
      var g, i :| g in cache && 0 <= i < |cache[g]| && Pair(cache[g][i]) == p;
      assert cache'[g][i] == cache[g][i];
    }
    forall p | p in Flat(cache') ensures p in Flat(cache) + {Pair(e)} {
      var g, i :| g in cache' && 0 <= i < |cache'[g]| && Pair(cache'[g][i]) == p;
      if g != h || i < n { assert Pair(cache[g][i]) == p; }
    }
  }
}
