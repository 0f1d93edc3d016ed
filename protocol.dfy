/**
  The client side of the log (transparentlog_core/src/base.rs, `check_record`
  and `get_proofs`): a client trusts one tree head, refreshes it only after a
  consistency proof, and checks records with inclusion proofs, taking node
  hashes from its cache before asking the log.
*/
module Protocol {
  import opened Wrappers
  import opened Arith
  import opened Hashing
  import opened TreeMath
  import opened Merkle
  import opened FileStore
  import opened Memory

  // ---------------------------------------------------------------------
  // `get_proofs`
  // ---------------------------------------------------------------------

  /** The asked positions the cache can answer. */
  function CachedAt(cache: Option<map<Pos, Hash>>, positions: set<Pos>): (r: map<Pos, Hash>)
    ensures r.Keys <= positions
    ensures forall p | p in r :: CachedHash(cache, p) == Some(r[p])
    ensures forall p | p in positions && p !in r :: CachedHash(cache, p) == None
  {
    map p | p in positions && CachedHash(cache, p).Some? :: CachedHash(cache, p).value
  }

  /** The asked positions left for the log. */
  function ToRead(cache: Option<map<Pos, Hash>>, positions: set<Pos>): set<Pos>
  {
    positions - CachedAt(cache, positions).Keys
  }

  /** What `get_proofs` returns when the log's read succeeds: cached hashes plus read ones. */
  function Gathered(store: seq<seq<Hash>>, cache: Option<map<Pos, Hash>>, positions: set<Pos>): map<Pos, Hash>
  {
    CachedAt(cache, positions) + StoredAt(store, ToRead(cache, positions))
  }

  /** The log's read of the uncached positions succeeds: none lies past the end of its level. */
  ghost predicate ReadSucceeds(store: seq<seq<Hash>>, cache: Option<map<Pos, Hash>>, positions: set<Pos>) {
    forall p | p in ToRead(cache, positions) && p.0 < |store| :: p.1 < |store[p.0]|
  }

  /** Handling one more position: it goes to the cached part or to the part left for the log. */
  lemma SplitStep(cache: Option<map<Pos, Hash>>, done: set<Pos>, p: Pos)
    requires p !in done
    ensures CachedHash(cache, p).Some? ==>
      CachedAt(cache, done + {p}) == CachedAt(cache, done)[p := CachedHash(cache, p).value]
      && ToRead(cache, done + {p}) == ToRead(cache, done)
    ensures CachedHash(cache, p).None? ==>
      CachedAt(cache, done + {p}) == CachedAt(cache, done)
      && ToRead(cache, done + {p}) == ToRead(cache, done) + {p}
  {
    var before := CachedAt(cache, done);
    var after := CachedAt(cache, done + {p});
    if CachedHash(cache, p).Some? {
      assert after == before[p := CachedHash(cache, p).value];
    } else {
      assert after == before;
    }
  }

  /**
    The filter `get_proofs` passes to `proofs`: positions the client has
    cached are collected, the others are left for the log.
  */
  method SplitCached(client: InMemoryLogClient, positions: set<Pos>)
    returns (cached: map<Pos, Hash>, uncached: set<Pos>)
    ensures cached == CachedAt(client.cache, positions)
    ensures uncached == ToRead(client.cache, positions)
  {
    cached := map[];
    uncached := {};
    var rest := positions;
    ghost var done: set<Pos> := {};
    while rest != {}
      invariant done == positions - rest && rest <= positions
      invariant cached == CachedAt(client.cache, done)
      invariant uncached == ToRead(client.cache, done)
      decreases |rest|
    {
      var p: Pos :| p in rest;
      var h := client.Cached(p);
      SplitStep(client.cache, done, p);
      if h.Some? {
        cached := cached[p := h.value];
      } else {
        uncached := uncached + {p};
      }
      rest := rest - {p};
      done := done + {p};
    }
    assert done == positions;
  }

  /**
    `get_proofs`: split the positions into cached and uncached ones, read the
    uncached ones from the log, add what was read to the cache and return
    both together.
  */
  method GetProofs<T(!new)>(client: InMemoryLogClient, log: FileLog<T>, positions: set<Pos>)
    returns (r: Result<map<Pos, Hash>, LogError>)
    modifies client
    ensures client.latest == old(client.latest)
    ensures r.Success? <==> ReadSucceeds(log.hashes, old(client.cache), positions)
    ensures r.Success? ==> r.value == Gathered(log.hashes, old(client.cache), positions)
    ensures r.Success? ==> client.cache == Extended(old(client.cache), StoredAt(log.hashes, ToRead(old(client.cache), positions)))
    ensures r.Failure? ==> client.cache == old(client.cache)
  {
    ghost var cache := client.cache;
    var cached, uncached := SplitCached(client, positions);
    ghost var store := log.hashes;
    var read := log.Proofs(uncached);
    if read.Failure? {
      return Failure(read.error);
    }
    ghost var gathered := Gathered(store, cache, positions);
    assert gathered == cached + read.value;
    client.AddCached(read.value);
    if cached == map[] {
      assert cached + read.value == read.value;
      r := Success(read.value);
    } else {
      r := Success(cached + read.value);
    }
  }

  // ---------------------------------------------------------------------
  // What an honest log serves
  // ---------------------------------------------------------------------

  /** Caching stays on or off, and a cache that is on only gains positions. */
  ghost predicate CacheGrows(before: Option<map<Pos, Hash>>, after: Option<map<Pos, Hash>>) {
    (before.None? <==> after.None?)
    && (before.Some? && after.Some? ==> before.value.Keys <= after.value.Keys)
  }

  /** Every cached hash is the hash of a complete node of the tree over `leaves`. */
  ghost predicate CacheFaithful(d: Digest, leaves: seq<Hash>, cache: Option<map<Pos, Hash>>) {
    cache.Some? ==>
      forall p | p in cache.value :: p.1 < Shift(|leaves|, p.0) && cache.value[p] == SubtreeHash(d, leaves, p.0, p.1)
  }

  /** A cache that was faithful before a call is faithful after it. */
  ghost predicate KeepsFaithful(d: Digest, leaves: seq<Hash>, before: Option<map<Pos, Hash>>, after: Option<map<Pos, Hash>>) {
    CacheFaithful(d, leaves, before) ==> CacheFaithful(d, leaves, after)
  }

  /** The client trusts a prefix of the log under its true root, and its cache is faithful. */
  ghost predicate HonestClient(latest: LogTree, cache: Option<map<Pos, Hash>>, d: Digest, leaves: seq<Hash>) {
    latest.size <= |leaves|
    && latest.hash == Root(d, leaves[..latest.size])
    && CacheFaithful(d, leaves, cache)
  }

  /**
    The client trusts a non-empty head of a smaller tree than the log's whose
    hash is not the root of the log's prefix of that size; its cache is faithful.
  */
  ghost predicate Diverged(latest: LogTree, cache: Option<map<Pos, Hash>>, d: Digest, leaves: seq<Hash>) {
    0 < latest.size < |leaves|
    && latest.hash != Root(d, leaves[..latest.size])
    && CacheFaithful(d, leaves, cache)
  }

  /**
    Hashes gathered from a faithful cache and an exact store are node hashes
    of the tree, and the extended cache stays faithful.
  */
  lemma GatheredFaithful(d: Digest, store: seq<seq<Hash>>, leaves: seq<Hash>, cache: Option<map<Pos, Hash>>, positions: set<Pos>)
    requires StoreFor(d, store, leaves) && CacheFaithful(d, leaves, cache)
    ensures var m := Gathered(store, cache, positions);
      m.Keys <= positions
      && forall p | p in m :: p.1 < Shift(|leaves|, p.0) && m[p] == SubtreeHash(d, leaves, p.0, p.1)
    ensures CacheFaithful(d, leaves, Extended(cache, StoredAt(store, ToRead(cache, positions))))
  {
    var c := CachedAt(cache, positions);
    var s := StoredAt(store, ToRead(cache, positions));
    forall p | p in s
      ensures p.1 < Shift(|leaves|, p.0) && s[p] == SubtreeHash(d, leaves, p.0, p.1)
    {
      assert |store[p.0]| == Shift(|leaves|, p.0);
    }
    forall p | p in c
      ensures p.1 < Shift(|leaves|, p.0) && c[p] == SubtreeHash(d, leaves, p.0, p.1)
    {
      assert CachedHash(cache, p) == Some(c[p]);
    }
  }

  /** Asking only for complete nodes, the read succeeds and every position is answered. */
  lemma GatheredComplete(d: Digest, store: seq<seq<Hash>>, leaves: seq<Hash>, cache: Option<map<Pos, Hash>>, positions: set<Pos>)
    requires StoreFor(d, store, leaves)
    requires forall p | p in positions :: p.0 < |LevelSizes(|leaves|)| && p.1 < LevelSizes(|leaves|)[p.0]
    ensures ReadSucceeds(store, cache, positions)
    ensures Gathered(store, cache, positions).Keys == positions
    ensures StoredAt(store, ToRead(cache, positions)).Keys == ToRead(cache, positions)
  {
    StoredComplete(d, store, leaves, ToRead(cache, positions));
  }

  /** Gathered node hashes of the full tree are faithful to the tree's first m leaves. */
  lemma GatheredForPrefix(d: Digest, leaves: seq<Hash>, m: nat, proofs: map<Pos, Hash>)
    requires 0 < m <= |leaves|
    requires forall p | p in proofs :: p.1 < Shift(|leaves|, p.0) && proofs[p] == SubtreeHash(d, leaves, p.0, p.1)
    ensures Faithful(d, leaves[..m], LevelSizes(m), proofs)
  {
    var sizes := LevelSizes(|leaves|);
    forall p | p in proofs && p.0 < |sizes| && p.1 < sizes[p.0]
      ensures proofs[p] == SubtreeHash(d, leaves, p.0, p.1)
    {
    }
    assert leaves[..|leaves|] == leaves;
    FaithfulToPrefix(d, leaves, m, proofs);
  }

  /**
    An honest log's consistency proof from a trusted prefix of size k, at the
    corrected positions, passes the check of the new head, and passes the
    check of the trusted head exactly when its hash is the prefix's root.
  */
  lemma ConsistencyPasses(d: Digest, store: seq<seq<Hash>>, leaves: seq<Hash>, cache: Option<map<Pos, Hash>>, k: nat)
    requires StoreFor(d, store, leaves) && CacheFaithful(d, leaves, cache)
    requires 0 < k < |leaves|
    ensures ReadSucceeds(store, cache, PrefixPositionSet(k, |leaves|))
    ensures var m := Gathered(store, cache, PrefixPositionSet(k, |leaves|));
      (forall r :: VerifyTree(d, LogTree(k, r), m) <==> r == Root(d, leaves[..k]))
      && VerifyTree(d, LogTree(|leaves|, Root(d, leaves)), m)
    ensures CacheFaithful(d, leaves, Extended(cache, StoredAt(store, ToRead(cache, PrefixPositionSet(k, |leaves|)))))
  {
    var positions := PrefixPositionSet(k, |leaves|);
    PrefixPositionsComplete(k, |leaves|);
    GatheredComplete(d, store, leaves, cache, positions);
    GatheredFaithful(d, store, leaves, cache, positions);
    var m := Gathered(store, cache, positions);
    GatheredForPrefix(d, leaves, |leaves|, m);
    assert leaves[..|leaves|] == leaves;
    ConsistencyRoundTrip(d, leaves, k, m);
  }

  /**
    At the positions `prefix_proof_positions(5, 15)` names as written, an
    honest log of 15 records (digest `Dot`) and a faithful cache yield hashes
    that pass the check of the honest trusted head of 5 records and fail the
    check of the honest new head.
  */
  lemma AsWrittenConsistencyFails5To15(store: seq<seq<Hash>>, leaves: seq<Hash>, cache: Option<map<Pos, Hash>>)
    requires StoreFor(Dot, store, leaves) && CacheFaithful(Dot, leaves, cache)
    requires |leaves| == 15 && NonEmptyLeaves(leaves)
    ensures ReadSucceeds(store, cache, PrefixPositionSetAsWritten(5, 15))
    ensures var m := Gathered(store, cache, PrefixPositionSetAsWritten(5, 15));
      VerifyTree(Dot, LogTree(5, Root(Dot, leaves[..5])), m) && !VerifyTree(Dot, LogTree(15, Root(Dot, leaves)), m)
  {
    assert leaves[..|leaves|] == leaves;
    var positions := PrefixPositionSetAsWritten(5, 15);
    PrefixPositionsExample15();
    PrefixPositionsComplete(5, 15);
    GatheredComplete(Dot, store, leaves, cache, positions);
    GatheredFaithful(Dot, store, leaves, cache, positions);
    var m := Gathered(store, cache, positions);
    GatheredForPrefix(Dot, leaves, |leaves|, m);
    AsWrittenConsistencyRejects5To15(leaves, m);
  }

  /**
    An inclusion proof for record i in the prefix of size m gathered from an
    honest log decides exactly whether the record's hash fits that prefix's root.
  */
  lemma InclusionDecided(d: Digest, store: seq<seq<Hash>>, leaves: seq<Hash>, cache: Option<map<Pos, Hash>>, m: nat, i: nat, h: Hash)
    requires StoreFor(d, store, leaves) && CacheFaithful(d, leaves, cache)
    requires m <= |leaves| && i <= m
    ensures ReadSucceeds(store, cache, ProofPositionSet(i, m))
    ensures StoredAt(store, ToRead(cache, ProofPositionSet(i, m))).Keys == ToRead(cache, ProofPositionSet(i, m))
    ensures var tree := leaves[..m];
      Verify(d, LogTree(m, Root(d, tree)), Record(i, h), Gathered(store, cache, ProofPositionSet(i, m)))
      == (i < m && Root(d, tree[i := h]) == Root(d, tree))
  {
    var positions := ProofPositionSet(i, m);
    var tree := leaves[..m];
    if m == 0 {
      assert positions == {};
    } else {
      ProofPositionsComplete(i, m);
      CompleteInPrefix(leaves, m, positions);
      GatheredComplete(d, store, leaves, cache, positions);
      GatheredFaithful(d, store, leaves, cache, positions);
      var g := Gathered(store, cache, positions);
      if i < m {
        GatheredForPrefix(d, leaves, m, g);
        ProofPositionsOffPath(i, m);
        VerifyExactly(d, tree, i, h, Root(d, tree), g);
      }
    }
  }

  /** A complete node of the prefix tree of size m is a complete node of the whole tree. */
  lemma CompleteInPrefix(leaves: seq<Hash>, m: nat, positions: set<Pos>)
    requires m <= |leaves|
    requires forall p | p in positions :: p.0 < |LevelSizes(m)| && p.1 < LevelSizes(m)[p.0]
    ensures forall p | p in positions :: p.0 < |LevelSizes(|leaves|)| && p.1 < LevelSizes(|leaves|)[p.0]
  {
    forall p | p in positions
      ensures p.0 < |LevelSizes(|leaves|)| && p.1 < LevelSizes(|leaves|)[p.0]
    {
      HeightMonotone(m, |leaves|);
      ShiftMonotone(m, |leaves|, p.0);
    }
  }

  // ---------------------------------------------------------------------
  // `check_record`
  // ---------------------------------------------------------------------

  /**
    The consistency half of `check_record`, at the corrected positions: fetch
    the prefix proof between the trusted head and the log's head and check it
    against both roots. Against an honest log and a faithful cache it answers
    exactly whether the trusted hash is the root of the log's prefix.
  */
  method CheckConsistency<T(!new)>(client: InMemoryLogClient, log: FileLog<T>, trusted: LogTree, head: LogTree)
    returns (r: Result<bool, LogError>)
    requires log.Valid()
    requires 0 < trusted.size < head.size
    requires head == LogTree(|log.leaves|, Root(log.digest, log.leaves))
    modifies client
    ensures client.latest == old(client.latest)
    ensures CacheGrows(old(client.cache), client.cache)
    ensures r == Success(true) ==>
      var m := Gathered(log.hashes, old(client.cache), PrefixPositionSet(trusted.size, |log.leaves|));
      VerifyTree(log.digest, trusted, m) && VerifyTree(log.digest, head, m)
    ensures KeepsFaithful(log.digest, log.leaves, old(client.cache), client.cache)
    ensures old(CacheFaithful(log.digest, log.leaves, client.cache)) ==>
      r == Success(trusted.hash == Root(log.digest, log.leaves[..trusted.size]))
  {
    ghost var cache0 := client.cache;
    if CacheFaithful(log.digest, log.leaves, cache0) {
      ConsistencyPasses(log.digest, log.hashes, log.leaves, cache0, trusted.size);
    }
    var positions := PrefixProofPositions(trusted.size, head.size);
    var proofs := GetProofs(client, log, positions.value);
    if proofs.Failure? {
      return Failure(proofs.error);
    }
    if !VerifyTree(log.digest, trusted, proofs.value) {
      return Success(false);
    }
    if !VerifyTree(log.digest, head, proofs.value) {
      return Success(false);
    }
    r := Success(true);
  }

  /**
    The first block of `check_record`, with the correction: a record at or
    past the trusted size makes the client fetch the log's head and, when it
    trusted a non-empty tree, check the consistency proof before trusting the
    new head (`AdvanceHead`). `Success(true)` means: go on to the inclusion
    check.
  */
  method RefreshHead<T(!new)>(client: InMemoryLogClient, log: FileLog<T>, id: nat) returns (r: Result<bool, LogError>)
    requires log.Valid()
    modifies client
    ensures CacheGrows(old(client.cache), client.cache)
    ensures client.latest == old(client.latest)
      || (id >= old(client.latest.size) && client.latest == LogTree(|log.leaves|, Root(log.digest, log.leaves)))
    ensures r == Success(true) && id >= old(client.latest.size) ==> client.latest == LogTree(|log.leaves|, Root(log.digest, log.leaves))
    ensures id < old(client.latest.size) ==> r == Success(true) && client.latest == old(client.latest) && client.cache == old(client.cache)
    ensures client.latest != old(client.latest) && old(client.latest.size) > 0 ==>
      var m := Gathered(log.hashes, old(client.cache), PrefixPositionSet(old(client.latest.size), |log.leaves|));
      old(client.latest.size) < |log.leaves|
      && VerifyTree(log.digest, old(client.latest), m) && VerifyTree(log.digest, client.latest, m)
    ensures 0 < old(client.latest.size) <= id && |log.leaves| <= old(client.latest.size) ==>
      r == Success(false) && client.latest == old(client.latest)
    ensures old(Diverged(client.latest, client.cache, log.digest, log.leaves)) && id >= old(client.latest.size) ==>
      r == Success(false) && client.latest == old(client.latest)
    ensures KeepsFaithful(log.digest, log.leaves, old(client.cache), client.cache)
    ensures old(HonestClient(client.latest, client.cache, log.digest, log.leaves)) ==>
      HonestClient(client.latest, client.cache, log.digest, log.leaves)
      && (r == Success(true) || (0 < old(client.latest.size) == |log.leaves| <= id && r == Success(false)))
  {
    ghost var honest := HonestClient(client.latest, client.cache, log.digest, log.leaves);
    var trusted := client.Latest();
    if id >= trusted.size {
      var head := log.Latest();
      if trusted.size > 0 {
        r := AdvanceHead(client, log, head);
        return;
      }
      client.SetLatest(head);
      if honest {
        assert log.leaves[..|log.leaves|] == log.leaves;
      }
    }
    r := Success(true);
  }

  /**
    The consistency block of `check_record`, for a client that trusts a
    non-empty tree: the new head is trusted only after the consistency proof
    checks. A log that did not grow past the trusted size is answered `false`
    instead of tripping the assertion of `prefix_proof_positions`; a trusted
    hash that is not the root of the log's prefix is answered `false` and the
    trusted head is kept.
  */
  method AdvanceHead<T(!new)>(client: InMemoryLogClient, log: FileLog<T>, head: LogTree) returns (r: Result<bool, LogError>)
    requires log.Valid() && 0 < client.latest.size
    requires head == LogTree(|log.leaves|, Root(log.digest, log.leaves))
    modifies client
    ensures CacheGrows(old(client.cache), client.cache)
    ensures client.latest == old(client.latest) || (r == Success(true) && client.latest == head)
    ensures r == Success(true) ==> client.latest == head
    ensures client.latest != old(client.latest) ==>
      var m := Gathered(log.hashes, old(client.cache), PrefixPositionSet(old(client.latest.size), |log.leaves|));
      old(client.latest.size) < |log.leaves|
      && VerifyTree(log.digest, old(client.latest), m) && VerifyTree(log.digest, client.latest, m)
    ensures |log.leaves| <= old(client.latest.size) ==> r == Success(false) && client.latest == old(client.latest)
    ensures old(Diverged(client.latest, client.cache, log.digest, log.leaves)) ==>
      r == Success(false) && client.latest == old(client.latest)
    ensures KeepsFaithful(log.digest, log.leaves, old(client.cache), client.cache)
    ensures old(HonestClient(client.latest, client.cache, log.digest, log.leaves)) ==>
      HonestClient(client.latest, client.cache, log.digest, log.leaves)
      && (r == Success(true) || (old(client.latest.size) == |log.leaves| && r == Success(false)))
  {
    ghost var honest := HonestClient(client.latest, client.cache, log.digest, log.leaves);
    var trusted := client.Latest();
    if head.size <= trusted.size {
      return Success(false);
    }
    var consistent := CheckConsistency(client, log, trusted, head);
    if consistent != Success(true) {
      return consistent;
    }
    client.SetLatest(head);
    if honest {
      assert log.leaves[..|log.leaves|] == log.leaves;
    }
    r := Success(true);
  }

  /**
    The last three lines of `check_record`, with the range check of `verify`:
    an inclusion proof for the record against the trusted head, its hashes
    taken from the cache first and from the log otherwise.
  */
  method CheckInclusion<T(!new)>(client: InMemoryLogClient, log: FileLog<T>, record: Record) returns (r: Result<bool, LogError>)
    requires log.Valid()
    modifies client
    ensures client.latest == old(client.latest)
    ensures CacheGrows(old(client.cache), client.cache)
    ensures r.Success? ==> r.value == Verify(log.digest, client.latest, record,
      Gathered(log.hashes, old(client.cache), ProofPositionSet(record.id, client.latest.size)))
    ensures r == Success(true) ==> record.id < client.latest.size
    ensures KeepsFaithful(log.digest, log.leaves, old(client.cache), client.cache)
    ensures old(HonestClient(client.latest, client.cache, log.digest, log.leaves)) ==>
      var m := client.latest.size;
      var tree := log.leaves[..m];
      && HonestClient(client.latest, client.cache, log.digest, log.leaves)
      && (record.id <= m ==> r.Success? && r.value == (record.id < m && Root(log.digest, tree[record.id := record.hash]) == Root(log.digest, tree)))
      && (record.id < m && record.hash == tree[record.id] ==> r == Success(true))
      && (record.id <= m && client.cache.Some? ==> ProofPositionSet(record.id, m) <= client.cache.value.Keys)
  {
    ghost var honest := HonestClient(client.latest, client.cache, log.digest, log.leaves);
    ghost var cache0 := client.cache;
    var current := client.Latest();
    ghost var positions0 := ProofPositionSet(record.id, current.size);
    if honest {
      if record.id <= current.size {
        InclusionDecided(log.digest, log.hashes, log.leaves, cache0, current.size, record.id, record.hash);
      }
      if record.id < current.size && record.hash == log.leaves[..current.size][record.id] {
        assert log.leaves[..current.size][record.id := record.hash] == log.leaves[..current.size];
      }
    }
    if CacheFaithful(log.digest, log.leaves, cache0) {
      GatheredFaithful(log.digest, log.hashes, log.leaves, cache0, positions0);
    }
    var positions := ProofPositions(record.id, current.size);
    var proofs := GetProofs(client, log, positions);
    if proofs.Failure? {
      return Failure(proofs.error);
    }
    if honest && record.id <= current.size && cache0.Some? {
      assert CachedAt(cache0, positions0).Keys <= cache0.value.Keys;
    }
    r := Success(Verify(log.digest, current, record, proofs.value));
  }

  /**
    `check_record` with both corrections: the trusted head is refreshed when
    the record lies at or past it, then the record is checked by an inclusion
    proof against the trusted head, with the range check of `verify`.
  */
  method CheckRecord<T(!new)>(client: InMemoryLogClient, log: FileLog<T>, record: Record) returns (r: Result<bool, LogError>)
    requires log.Valid()
    modifies client
    ensures client.latest == old(client.latest)
      || (record.id >= old(client.latest.size) && client.latest == LogTree(|log.leaves|, Root(log.digest, log.leaves)))
    ensures CacheGrows(old(client.cache), client.cache)
    ensures r == Success(true) ==> record.id < client.latest.size
    ensures 0 < old(client.latest.size) <= record.id && |log.leaves| <= old(client.latest.size) ==>
      r == Success(false) && client.latest == old(client.latest)
    ensures old(Diverged(client.latest, client.cache, log.digest, log.leaves)) && record.id >= old(client.latest.size) ==>
      r == Success(false) && client.latest == old(client.latest)
    ensures KeepsFaithful(log.digest, log.leaves, old(client.cache), client.cache)
    ensures old(HonestClient(client.latest, client.cache, log.digest, log.leaves)) ==>
      var k := old(client.latest.size);
      var tree := if record.id < k then log.leaves[..k] else log.leaves;
      && (record.id <= |tree| ==> r.Success?)
      && (r.Success? ==> r.value == (record.id < |tree| && Root(log.digest, tree[record.id := record.hash]) == Root(log.digest, tree)))
      && (record.id < |tree| && record.hash == tree[record.id] ==> r == Success(true))
      && (record.id < |tree| && client.cache.Some? ==> ProofPositionSet(record.id, |tree|) <= client.cache.value.Keys)
      && client.latest == (if record.id < k then old(client.latest) else LogTree(|log.leaves|, Root(log.digest, log.leaves)))
      && HonestClient(client.latest, client.cache, log.digest, log.leaves)
  {
    ghost var honest := HonestClient(client.latest, client.cache, log.digest, log.leaves);
    ghost var k := client.latest.size;
    var go := RefreshHead(client, log, record.id);
    if go != Success(true) {
      if honest {
        assert log.leaves[..|log.leaves|] == log.leaves;
      }
      return go;
    }
    ghost var mid := client.latest;
    r := CheckInclusion(client, log, record);
    if honest {
      assert client.latest == mid && mid.size <= |log.leaves|;
      ghost var tree := log.leaves[..mid.size];
      assert tree == if record.id < k then log.leaves[..k] else log.leaves;
    }
  }

  /**
    The first block of `check_record` as written: the positions come from
    `prefix_proof_positions` as written, whose assertion aborts the call when
    the log did not grow past the trusted size. An honest client trusting the
    first 5 of 15 records (digest `Dot`) is refused the honest head.
  */
  method RefreshHeadAsWritten<T(!new)>(client: InMemoryLogClient, log: FileLog<T>, id: nat) returns (r: Result<bool, LogError>)
    requires log.Valid()
    modifies client
    ensures client.latest == old(client.latest)
      || (id >= old(client.latest.size) && client.latest == LogTree(|log.leaves|, Root(log.digest, log.leaves)))
    ensures client.latest != old(client.latest) && old(client.latest.size) > 0 ==>
      var m := Gathered(log.hashes, old(client.cache), PrefixPositionSetAsWritten(old(client.latest.size), |log.leaves|));
      old(client.latest.size) < |log.leaves|
      && VerifyTree(log.digest, old(client.latest), m) && VerifyTree(log.digest, client.latest, m)
    ensures 0 < old(client.latest.size) <= id && |log.leaves| <= old(client.latest.size) ==>
      r == Failure(AssertionPanic)
    ensures old(client.latest.size) == 0 ==>
      r == Success(true) && client.latest == LogTree(|log.leaves|, Root(log.digest, log.leaves)) && client.cache == old(client.cache)
    ensures (log.digest == Dot && |log.leaves| == 15 && old(CacheFaithful(Dot, log.leaves, client.cache))
      && old(client.latest) == LogTree(5, Root(Dot, log.leaves[..5])) && id >= 5) ==>
      r == Success(false) && client.latest == old(client.latest)
  {
    ghost var cache0 := client.cache;
    var trusted := client.Latest();
    if id >= trusted.size {
      var head := log.Latest();
      if trusted.size > 0 {
        if log.digest == Dot && |log.leaves| == 15 && trusted == LogTree(5, Root(Dot, log.leaves[..5]))
          && CacheFaithful(Dot, log.leaves, cache0) {
          AsWrittenConsistencyFails5To15(log.hashes, log.leaves, cache0);
        }
        var positions := PrefixProofPositionsAsWritten(trusted.size, head.size);
        if positions.Failure? {
          return Failure(positions.error);
        }
        var proofs := GetProofs(client, log, positions.value);
        if proofs.Failure? {
          return Failure(proofs.error);
        }
        if !VerifyTree(log.digest, trusted, proofs.value) {
          return Success(false);
        }
        if !VerifyTree(log.digest, head, proofs.value) {
          return Success(false);
        }
      }
      client.SetLatest(head);
    }
    r := Success(true);
  }

  /**
    `check_record` as written: the head refresh can abort, and the inclusion
    check uses `proof_positions` and `verify` as written.
  */
  method CheckRecordAsWritten<T(!new)>(client: InMemoryLogClient, log: FileLog<T>, record: Record) returns (r: Result<bool, LogError>)
    requires log.Valid()
    modifies client
    ensures client.latest == old(client.latest)
      || (record.id >= old(client.latest.size) && client.latest == LogTree(|log.leaves|, Root(log.digest, log.leaves)))
    ensures 0 < old(client.latest.size) <= record.id && |log.leaves| <= old(client.latest.size) ==>
      r == Failure(AssertionPanic)
    ensures (log.digest == Dot && |log.leaves| == 15 && old(CacheFaithful(Dot, log.leaves, client.cache))
      && old(client.latest) == LogTree(5, Root(Dot, log.leaves[..5])) && record.id >= 5) ==>
      r == Success(false) && client.latest == old(client.latest)
    ensures old(client.latest.size) == 0 ==>
      var positions := ProofPositionSetAsWritten(record.id, |log.leaves|);
      && client.latest == LogTree(|log.leaves|, Root(log.digest, log.leaves))
      && (r.Success? <==> ReadSucceeds(log.hashes, old(client.cache), positions))
      && (r.Success? ==>
        r.value == VerifyAsWritten(log.digest, client.latest, record, Gathered(log.hashes, old(client.cache), positions))
        && client.cache == Extended(old(client.cache), StoredAt(log.hashes, ToRead(old(client.cache), positions))))
  {
    var go := RefreshHeadAsWritten(client, log, record.id);
    if go != Success(true) {
      return go;
    }
    var current := client.Latest();
    var positions := ProofPositionsAsWritten(record.id, current.size);
    var proofs := GetProofs(client, log, positions);
    if proofs.Failure? {
      return Failure(proofs.error);
    }
    r := Success(VerifyAsWritten(log.digest, current, record, proofs.value));
  }
  // ---------------------------------------------------------------------
  // The crate's client scenario on thirteen records
  // ---------------------------------------------------------------------

  /** `append_multiple`: append the records in order. */
  method AppendAll<T(!new)>(log: FileLog<T>, records: seq<T>)
    requires log.Valid()
    modifies log
    ensures log.Valid() && log.records == old(log.records) + records
  {
    ghost var before := log.records;
    var i := 0;
    while i < |records|
      invariant 0 <= i <= |records| && log.Valid() && log.records == before + records[..i]
    {
      var _, _ := log.Append(records[i]);
      assert records[..i + 1] == records[..i] + [records[i]];
      i := i + 1;
    }
    assert records[..i] == records;
  }

  /**
    `client_13` and `client_13_nocache`: a client built on the empty log, the
    log then grown to thirteen records, and record 9 checked with the hash of
    what `get` returns. The check succeeds, the client moves to the head of
    thirteen records, and leaf 8 is cached exactly when caching is on.
  */
  method ClientThirteen<T(!new)>(log: FileLog<T>, records: seq<T>, caching: bool)
    returns (r: Result<bool, LogError>, client: InMemoryLogClient)
    requires log.Valid() && log.records == [] && |records| == 13 && RoundTrips(log.codec)
    modifies log
    ensures r == Success(true) && client.latest.size == 13
    ensures caching ==> client.cache.Some? && (0, 8) in client.cache.value
    ensures !caching ==> client.cache == None
  {
    var builder := new InMemoryLogClientBuilder.New(log);
    if !caching {
      builder.NoCache();
    }
    client := builder.Build();
    assert client.latest == LogTree(0, "");
    AppendAll(log, records);
    var got := log.Get(9);
    var h := LeafHash(log.digest, log.codec, got.value);
    assert log.leaves[..0] == [];
    ProofPositionsExample13();
    r := CheckRecord(client, log, Record(9, h));
  }

  /**
    `client_13` and `client_13_nocache` with `check_record` as written: the
    same outcome, because the as-written positions for record 9 of 13 are the
    corrected ones and id 9 lies inside the tree.
  */
  method ClientThirteenAsWritten<T(!new)>(log: FileLog<T>, records: seq<T>, caching: bool)
    returns (r: Result<bool, LogError>, client: InMemoryLogClient)
    requires log.Valid() && log.records == [] && |records| == 13 && RoundTrips(log.codec)
    modifies log
    ensures r == Success(true) && client.latest.size == 13
    ensures caching ==> client.cache.Some? && (0, 8) in client.cache.value
    ensures !caching ==> client.cache == None
  {
    var builder := new InMemoryLogClientBuilder.New(log);
    if !caching {
      builder.NoCache();
    }
    client := builder.Build();
    assert client.latest == LogTree(0, "");
    AppendAll(log, records);
    var got := log.Get(9);
    var h := LeafHash(log.digest, log.codec, got.value);
    ThirteenAsWrittenAccepts(log.digest, log.hashes, log.leaves, client.cache, h);
    r := CheckRecordAsWritten(client, log, Record(9, h));
  }

  /**
    Record 9 of an honest 13-record log, checked as written from the log's
    head: the read succeeds, `verify` as written accepts the true leaf hash,
    and with an empty cache leaf 8 is among the hashes read.
  */
  lemma ThirteenAsWrittenAccepts(d: Digest, store: seq<seq<Hash>>, leaves: seq<Hash>, cache: Option<map<Pos, Hash>>, h: Hash)
    requires StoreFor(d, store, leaves) && CacheFaithful(d, leaves, cache)
    requires |leaves| == 13 && h == leaves[9]
    ensures ReadSucceeds(store, cache, ProofPositionSetAsWritten(9, 13))
    ensures VerifyAsWritten(d, LogTree(13, Root(d, leaves)), Record(9, h), Gathered(store, cache, ProofPositionSetAsWritten(9, 13)))
    ensures cache == Some(map[]) ==> (0, 8) in StoredAt(store, ToRead(cache, ProofPositionSetAsWritten(9, 13)))
  {
    assert leaves[..13] == leaves;
    ProofPositionsExample13();
    InclusionDecided(d, store, leaves, cache, 13, 9, h);
    assert leaves[9 := h] == leaves;
    if cache == Some(map[]) {
      assert CachedHash(cache, (0, 8)) == None;
      assert (0, 8) in ToRead(cache, ProofPositionSetAsWritten(9, 13));
    }
  }
}
