/**
  The in-memory log and the in-memory client (transparentlog_core/src/memory.rs).
  The log keeps its records and a table of hashes per tree level; the client
  keeps the last tree head it trusts and, optionally, a cache of node hashes.
*/
module Memory {
  import opened Wrappers
  import opened Hashing
  import opened Merkle
  import FileStore

  // ---------------------------------------------------------------------
  // The hash table of `InMemoryLog`
  // ---------------------------------------------------------------------

  /** `get_hash`: the hash at (level, index), or which coordinate is missing. */
  function HashAt(hashes: seq<seq<Hash>>, level: nat, index: nat): (r: Result<Hash, LogError>)
    ensures r.Success? <==> level < |hashes| && index < |hashes[level]|
    ensures r.Success? ==> r.value == hashes[level][index]
    ensures level >= |hashes| ==> r == Failure(InvalidHeight(level))
    ensures level < |hashes| && index >= |hashes[level]| ==> r == Failure(InvalidIndex(level, index))
  {
    if level >= |hashes| then Failure(InvalidHeight(level))
    else if index >= |hashes[level]| then Failure(InvalidIndex(level, index))
    else Success(hashes[level][index])
  }

  /**
    `add_hash` on the table: the new table and the result. A missing level is
    pushed first, so a level beyond it fails only after the table has grown.
  */
  function WithHash(hashes: seq<seq<Hash>>, level: nat, h: Hash): (r: (seq<seq<Hash>>, Result<nat, LogError>))
    ensures level <= |hashes| ==> r.1.Success? && HashAt(r.0, level, r.1.value) == Success(h)
    ensures level <= |hashes| ==> r.1.value + 1 == |r.0[level]| && r.0[level][..r.1.value] == (if level < |hashes| then hashes[level] else [])
    ensures level <= |hashes| ==> |r.0| == (if level < |hashes| then |hashes| else |hashes| + 1)
    ensures forall l :: 0 <= l < |hashes| && l != level ==> l < |r.0| && r.0[l] == hashes[l]
    ensures level > |hashes| ==> r == (hashes + [[]], Failure(InvalidHeight(level)))
  {
    var grown := if |hashes| <= level then hashes + [[]] else hashes;
    if level < |grown| then
      var updated := grown[level := grown[level] + [h]];
      assert updated[level][..|grown[level]|] == grown[level];
      (updated, Success(|grown[level]|))
    else (grown, Failure(InvalidHeight(level)))
  }

  /** `InMemoryLog`: the records and the per-level hash table, both pushed in place. */
  class InMemoryLog<T> {
    var data: seq<T>
    var hashes: seq<seq<Hash>>

    /** `default`: an empty log. */
    constructor Default()
      ensures data == [] && hashes == []
    {
      data := [];
      hashes := [];
    }

    /** `size`: the number of records. */
    method Size() returns (n: nat)
      ensures n == |data|
    {
      n := |data|;
    }

    /** `get`: the record at `index`, or None past the end. */
    method Get(index: nat) returns (r: Option<T>)
      ensures index < |data| <==> r.Some?
      ensures r.Some? ==> r.value == data[index]
    {
      if index < |data| {
        r := Some(data[index]);
      } else {
        r := None;
      }
    }

    /** `add`: append the record; its id is the previous record count. */
    method Add(record: T) returns (id: nat)
      modifies this
      ensures id == |old(data)| && data == old(data) + [record]
      ensures hashes == old(hashes)
    {
      id := |data|;
      data := data + [record];
    }

    /** `add_hash`: push `h` on `level`, returning its index there. */
    method AddHash(level: nat, h: Hash) returns (r: Result<nat, LogError>)
      modifies this
      ensures (hashes, r) == WithHash(old(hashes), level, h)
      ensures data == old(data)
    {
      if |hashes| <= level {
        hashes := hashes + [[]];
      }
      if level >= |hashes| {
        return Failure(InvalidHeight(level));
      }
      hashes := hashes[level := hashes[level] + [h]];
      r := Success(|hashes[level]| - 1);
    }

    /** `get_hash`: the stored hash at (level, index). */
    method GetHash(level: nat, index: nat) returns (r: Result<Hash, LogError>)
      ensures r == HashAt(hashes, level, index)
    {
      if level >= |hashes| {
        return Failure(InvalidHeight(level));
      }
      if index >= |hashes[level]| {
        return Failure(InvalidIndex(level, index));
      }
      r := Success(hashes[level][index]);
    }
  }

  // ---------------------------------------------------------------------
  // The client
  // ---------------------------------------------------------------------

  /** `cached` on a cache: the hash stored for `p`, never anything when caching is off. */
  function CachedHash(cache: Option<map<Pos, Hash>>, p: Pos): (r: Option<Hash>)
    ensures cache.None? ==> r == None
    ensures cache.Some? ==> (r.Some? <==> p in cache.value)
    ensures r.Some? ==> cache.Some? && p in cache.value && r.value == cache.value[p]
  {
    match cache
    case None => None
    case Some(m) => if p in m then Some(m[p]) else None
  }

  /** `add_cached` on a cache: extend it with `proofs`, their values winning; no cache stays none. */
  function Extended(cache: Option<map<Pos, Hash>>, proofs: map<Pos, Hash>): (r: Option<map<Pos, Hash>>)
    ensures r.Some? <==> cache.Some?
    ensures r.Some? ==> r.value.Keys == cache.value.Keys + proofs.Keys
    ensures r.Some? ==> forall p | p in proofs :: r.value[p] == proofs[p]
    ensures r.Some? ==> forall p | p in cache.value && p !in proofs :: r.value[p] == cache.value[p]
  {
    match cache
    case None => None
    case Some(m) => Some(m + proofs)
  }

  /** `InMemoryLogClient`: the trusted tree head and the optional position cache. */
  class InMemoryLogClient {
    var latest: LogTree
    var cache: Option<map<Pos, Hash>>

    /** The struct literal `build` creates. */
    constructor (latest: LogTree, cache: Option<map<Pos, Hash>>)
      ensures this.latest == latest && this.cache == cache
    {
      this.latest := latest;
      this.cache := cache;
    }

    /** `latest`: the trusted head. */
    method Latest() returns (t: LogTree)
      ensures t == latest
    {
      t := latest;
    }

    /** `set_latest`: trust a new head; the cache is kept. */
    method SetLatest(t: LogTree)
      modifies this
      ensures latest == t && cache == old(cache)
    {
      latest := t;
    }

    /** `cached`: the cached hash of `p`, if caching is on and `p` was cached. */
    method Cached(p: Pos) returns (h: Option<Hash>)
      ensures h == CachedHash(cache, p)
    {
      if cache.Some? && p in cache.value {
        h := Some(cache.value[p]);
      } else {
        h := None;
      }
    }

    /** `add_cached`: extend the cache with `proofs` when caching is on. */
    method AddCached(proofs: map<Pos, Hash>)
      modifies this
      ensures cache == Extended(old(cache), proofs) && latest == old(latest)
    {
      if cache.Some? {
        cache := Some(cache.value + proofs);
      }
    }
  }

  /** `InMemoryLogClientBuilder`: a head to start from and whether to cache. */
  class InMemoryLogClientBuilder {
    var latest: LogTree
    var cache: bool

    /** `new`: start from the log's current head, caching on. */
    constructor New<T(!new)>(log: FileStore.FileLog<T>)
      requires log.Valid()
      ensures latest == LogTree(|log.leaves|, Root(log.digest, log.leaves)) && cache
    {
      var head := log.Latest();
      latest := head;
      cache := true;
    }

    /** `open`: start from a saved head, caching on. */
    constructor Open(latest: LogTree)
      ensures this.latest == latest && cache
    {
      this.latest := latest;
      cache := true;
    }

    /** `no_cache`: switch caching off. */
    method NoCache()
      modifies this
      ensures !cache && latest == old(latest)
    {
      cache := false;
    }

    /** `build`: a client trusting the head, with an empty cache only when caching is on. */
    method Build() returns (client: InMemoryLogClient)
      ensures fresh(client)
      ensures client.latest == latest
      ensures client.cache == if cache then Some(map[]) else None
    {
      client := new InMemoryLogClient(latest, if cache then Some(map[]) else None);
    }
  }
}
