/**
  The hash store of the file-backed log (transparentlog_core/src/file.rs):
  one append-only file of fixed-width hashes per tree level, filled by the
  binary-counter carry of `push_hash` and folded into a root by `latest`.
  The files are modelled as sequences of hashes, one sequence per level.
*/
module FileStore {
  import opened Wrappers
  import opened Arith
  import opened Hashing
  import opened TreeMath
  import opened Merkle

  /** Level k of a store over `leaves` holds the complete nodes of level k, in order. */
  ghost predicate LevelHolds(d: Digest, level: seq<Hash>, leaves: seq<Hash>, k: nat) {
    |level| == Shift(|leaves|, k)
    && forall j :: 0 <= j < |level| ==> level[j] == SubtreeHash(d, leaves, k, j)
  }

  /** The store holds exactly the non-empty levels of the tree over `leaves`. */
  ghost predicate StoreFor(d: Digest, store: seq<seq<Hash>>, leaves: seq<Hash>) {
    (forall k :: 0 <= k < |store| ==> LevelHolds(d, store[k], leaves, k) && |store[k]| > 0)
    && Shift(|leaves|, |store|) == 0
  }

  ghost predicate NonEmptyLeaves(leaves: seq<Hash>) {
    forall t :: 0 <= t < |leaves| ==> leaves[t] != ""
  }

  /**
    `push_hash(level, h)` on store contents: the level's file is created when
    it is missing, `h` is appended, and when the level's count becomes even the
    digest of its last two hashes is pushed one level up.
  */
  function Carry(d: Digest, store: seq<seq<Hash>>, level: nat, h: Hash): seq<seq<Hash>>
    requires level <= |store|
    decreases |store| + 1 - level
  {
    var pushed := Push(store, level, h);
    var count := |pushed[level]|;
    if count % 2 == 0 then Carry(d, pushed, level + 1, d(pushed[level][count - 2] + h))
    else pushed
  }

  /** One level's file, created when missing, with `h` appended. */
  function Push(store: seq<seq<Hash>>, level: nat, h: Hash): (r: seq<seq<Hash>>)
    requires level <= |store|
    ensures |r| == if level == |store| then |store| + 1 else |store|
    ensures r[level] == (if level == |store| then [] else store[level]) + [h]
    ensures forall l :: 0 <= l < |store| && l != level ==> r[l] == store[l]
  {
    var grown := if |store| <= level then store + [[]] else store;
    grown[level := grown[level] + [h]]
  }

  // ---------------------------------------------------------------------
  // Facts about node hashes used by the store
  // ---------------------------------------------------------------------

  /** A node covering no leaf hashes to "". */
  lemma {:induction false} VacantHash(d: Digest, leaves: seq<Hash>, k: nat, j: nat)
    requires j * Pow2(k) >= |leaves|
    ensures SubtreeHash(d, leaves, k, j) == ""
    decreases k
  {
    if k > 0 {
      ChildrenEnd(j, k);
      assert 2 * j * Pow2(k - 1) == j * Pow2(k);
      VacantHash(d, leaves, k - 1, 2 * j);
      VacantHash(d, leaves, k - 1, 2 * j + 1);
    }
  }

  /** A complete node over non-empty leaves has a non-empty hash. */
  lemma {:induction false} CompleteNonEmpty(d: Digest, leaves: seq<Hash>, k: nat, j: nat)
    requires NonEmptyDigest(d) && NonEmptyLeaves(leaves)
    requires j < Shift(|leaves|, k)
    ensures SubtreeHash(d, leaves, k, j) != ""
    decreases k
  {
    if k > 0 {
      CompleteNonEmpty(d, leaves, k - 1, 2 * j);
    }
  }

  /** Once two counts agree at level a they agree at every level above. */
  lemma SameAbove(m: nat, n: nat, a: nat, b: nat)
    requires a <= b && Shift(m, a) == Shift(n, a)
    ensures Shift(m, b) == Shift(n, b)
  {
    ShiftAdd(m, a, b - a);
    ShiftAdd(n, a, b - a);
  }

  // ---------------------------------------------------------------------
  // The carry keeps the store exact
  // ---------------------------------------------------------------------

  /**
    The state in the middle of a carry caused by appending the last leaf of
    `after` to `before`: the levels below `k` already describe `after`, the
    others still describe `before`, and `carry` is the new node of level `k`.
  */
  ghost predicate MidCarry(d: Digest, store: seq<seq<Hash>>, before: seq<Hash>, after: seq<Hash>, k: nat, carry: Hash) {
    |after| == |before| + 1 && after[..|before|] == before
    && k <= |store|
    && (forall l :: 0 <= l < k ==> LevelHolds(d, store[l], after, l) && |store[l]| > 0)
    && (forall l :: k <= l < |store| ==> LevelHolds(d, store[l], before, l) && |store[l]| > 0)
    && Shift(|before|, |store|) == 0
    && Shift(|after|, k) == Shift(|before|, k) + 1
    && carry == SubtreeHash(d, after, k, Shift(|before|, k))
  }

  /** The nodes of `before` complete at level k are unchanged in `after`. */
  lemma KeepLevel(d: Digest, level: seq<Hash>, before: seq<Hash>, after: seq<Hash>, k: nat)
    requires |after| == |before| + 1 && after[..|before|] == before
    requires LevelHolds(d, level, before, k)
    ensures forall j :: 0 <= j < |level| ==> level[j] == SubtreeHash(d, after, k, j)
  {
    forall j | 0 <= j < |level|
      ensures level[j] == SubtreeHash(d, after, k, j)
    {
      ShiftBelow(j, |before|, k);
      PrefixFrame(d, after, |before|, k, j);
    }
  }

  /** Appending the carried node makes level k describe `after`. */
  lemma PushedLevel(d: Digest, store: seq<seq<Hash>>, before: seq<Hash>, after: seq<Hash>, k: nat, carry: Hash)
    requires MidCarry(d, store, before, after, k, carry)
    ensures LevelHolds(d, Push(store, k, carry)[k], after, k)
  {
    var pushed := Push(store, k, carry);
    var c := Shift(|before|, k);
    if k == |store| {
      assert pushed[k] == [carry];
    } else {
      KeepLevel(d, store[k], before, after, k);
      assert pushed[k] == store[k] + [carry];
    }
  }

  /** An even count at level k moves the carry one level up. */
  lemma CarryUp(d: Digest, store: seq<seq<Hash>>, before: seq<Hash>, after: seq<Hash>, k: nat, carry: Hash)
    requires NonEmptyDigest(d) && NonEmptyLeaves(after)
    requires MidCarry(d, store, before, after, k, carry)
    requires |Push(store, k, carry)[k]| % 2 == 0
    ensures k < |store|
    ensures var pushed := Push(store, k, carry);
      MidCarry(d, pushed, before, after, k + 1, d(pushed[k][|pushed[k]| - 2] + carry))
  {
    var pushed := Push(store, k, carry);
    PushedLevel(d, store, before, after, k, carry);
    var c := Shift(|before|, k);
    var m := c / 2;
    assert |pushed[k]| == c + 1;
    assert Shift(|before|, k + 1) == m;
    assert Shift(|after|, k + 1) == m + 1;
    assert pushed[k][|pushed[k]| - 2] == SubtreeHash(d, after, k, 2 * m);
    CompleteNonEmpty(d, after, k, 2 * m + 1);
    assert d(pushed[k][|pushed[k]| - 2] + carry) == SubtreeHash(d, after, k + 1, m);
  }

  /** An odd count at level k ends the carry with every level describing `after`. */
  lemma CarryStop(d: Digest, store: seq<seq<Hash>>, before: seq<Hash>, after: seq<Hash>, k: nat, carry: Hash)
    requires MidCarry(d, store, before, after, k, carry)
    requires |Push(store, k, carry)[k]| % 2 == 1
    ensures StoreFor(d, Push(store, k, carry), after)
  {
    var pushed := Push(store, k, carry);
    PushedLevel(d, store, before, after, k, carry);
    assert Shift(|after|, k + 1) == Shift(|before|, k + 1);
    forall l | k < l < |pushed|
      ensures LevelHolds(d, pushed[l], after, l) && |pushed[l]| > 0
    {
      SameAbove(|after|, |before|, k + 1, l);
      KeepLevel(d, store[l], before, after, l);
    }
    if k < |store| {
      SameAbove(|after|, |before|, k + 1, |store|);
    } else {
      ShiftAntitone(|before|, k, k + 1);
    }
  }

  /** `push_hash(0, h)` turns the store of `before` into the store of `before + [h]`. */
  lemma {:induction false} CarryKeepsStore(d: Digest, store: seq<seq<Hash>>, before: seq<Hash>, after: seq<Hash>, k: nat, carry: Hash)
    requires NonEmptyDigest(d) && NonEmptyLeaves(after)
    requires MidCarry(d, store, before, after, k, carry)
    ensures StoreFor(d, Carry(d, store, k, carry), after)
    decreases |store| + 1 - k
  {
    var pushed := Push(store, k, carry);
    if |pushed[k]| % 2 == 0 {
      CarryUp(d, store, before, after, k, carry);
      CarryKeepsStore(d, pushed, before, after, k + 1, d(pushed[k][|pushed[k]| - 2] + carry));
    } else {
      CarryStop(d, store, before, after, k, carry);
    }
  }

  /** Appending one leaf hash keeps the store exact. */
  lemma AppendKeepsStore(d: Digest, store: seq<seq<Hash>>, leaves: seq<Hash>, h: Hash)
    requires NonEmptyDigest(d) && NonEmptyLeaves(leaves) && h != ""
    requires StoreFor(d, store, leaves)
    ensures StoreFor(d, Carry(d, store, 0, h), leaves + [h])
  {
    var after := leaves + [h];
    assert after[..|leaves|] == leaves;
    assert MidCarry(d, store, leaves, after, 0, h);
    CarryKeepsStore(d, store, leaves, after, 0, h);
  }

  // ---------------------------------------------------------------------
  // `latest`: folding the peaks gives the root
  // ---------------------------------------------------------------------

  /** The last hash of every odd-sized level below k, highest level first. */
  function PeaksBelow(store: seq<seq<Hash>>, k: nat): seq<Hash>
    requires k <= |store|
  {
    if k == 0 then []
    else
      var level := store[k - 1];
      (if |level| % 2 == 1 then [level[|level| - 1]] else []) + PeaksBelow(store, k - 1)
  }

  /** Right fold of the peak list: each peak combined with the fold of the lower ones. */
  function FoldPeaks(d: Digest, peaks: seq<Hash>): Hash
  {
    if |peaks| == 0 then ""
    else if |peaks| == 1 then peaks[0]
    else d(peaks[0] + FoldPeaks(d, peaks[1..]))
  }

  /** Merging the two lowest peaks does not change the fold. */
  lemma {:induction false} MergeLowest(d: Digest, rest: seq<Hash>, a: Hash, b: Hash)
    ensures FoldPeaks(d, rest + [a, b]) == FoldPeaks(d, rest + [d(a + b)])
  {
    if rest == [] {
      assert [a, b][1..] == [b];
    } else {
      MergeLowest(d, rest[1..], a, b);
      assert (rest + [a, b])[1..] == rest[1..] + [a, b];
      assert (rest + [d(a + b)])[1..] == rest[1..] + [d(a + b)];
    }
  }

  lemma {:induction false} FoldNonEmpty(d: Digest, peaks: seq<Hash>)
    requires NonEmptyDigest(d) && |peaks| > 0 && peaks[0] != ""
    ensures FoldPeaks(d, peaks) != ""
  {
  }

  /**
    The partial node at level k (the one holding the leaves past the last
    complete node) hashes to the fold of the peaks below k.
  */
  lemma {:induction false} Spine(d: Digest, store: seq<seq<Hash>>, leaves: seq<Hash>, k: nat)
    requires NonEmptyDigest(d) && NonEmptyLeaves(leaves)
    requires StoreFor(d, store, leaves) && k <= |store|
    ensures SubtreeHash(d, leaves, k, Shift(|leaves|, k)) == FoldPeaks(d, PeaksBelow(store, k))
  {
    if k > 0 {
      Spine(d, store, leaves, k - 1);
      if |store[k - 1]| % 2 == 1 {
        SpineOdd(d, store, leaves, k - 1);
      } else {
        PartialEven(d, leaves, k - 1);
        assert PeaksBelow(store, k) == PeaksBelow(store, k - 1);
      }
    }
  }

  /** Spine step where level l holds an odd number of nodes: its last one is a peak. */
  lemma SpineOdd(d: Digest, store: seq<seq<Hash>>, leaves: seq<Hash>, l: nat)
    requires NonEmptyDigest(d) && NonEmptyLeaves(leaves)
    requires StoreFor(d, store, leaves) && l < |store|
    requires |store[l]| % 2 == 1
    requires Shift(|leaves|, l + 1) == Shift(|leaves|, l) / 2
    requires SubtreeHash(d, leaves, l, Shift(|leaves|, l)) == FoldPeaks(d, PeaksBelow(store, l))
    ensures SubtreeHash(d, leaves, l + 1, Shift(|leaves|, l + 1)) == FoldPeaks(d, PeaksBelow(store, l + 1))
  {
    var c := Shift(|leaves|, l);
    var m := Shift(|leaves|, l + 1);
    assert c == 2 * m + 1;
    var peak := store[l][2 * m];
    var lower := PeaksBelow(store, l);
    assert peak == SubtreeHash(d, leaves, l, 2 * m);
    CompleteNonEmpty(d, leaves, l, 2 * m);
    assert SubtreeHash(d, leaves, l + 1, m) == Combine(d, peak, FoldPeaks(d, lower));
    assert PeaksBelow(store, l + 1) == [peak] + lower;
    if lower != [] {
      LowerPeakNonEmpty(d, store, leaves, l);
      FoldNonEmpty(d, lower);
      assert ([peak] + lower)[1..] == lower;
    }
  }

  /** The node just right of the partial node at level k covers no leaf. */
  lemma VacantPastPartial(d: Digest, leaves: seq<Hash>, k: nat)
    ensures SubtreeHash(d, leaves, k, Shift(|leaves|, k) + 1) == ""
  {
    var c := Shift(|leaves|, k);
    ShiftBelow(c, |leaves|, k);
    assert (c + 1) * Pow2(k) <= (c + 1) * Pow2(k) + Pow2(k) == (c + 2) * Pow2(k);
    VacantHash(d, leaves, k, c + 1);
  }

  /** With an even count at level l, the partial node of level l + 1 is that of level l. */
  lemma PartialEven(d: Digest, leaves: seq<Hash>, l: nat)
    requires Shift(|leaves|, l) % 2 == 0
    ensures SubtreeHash(d, leaves, l + 1, Shift(|leaves|, l + 1)) == SubtreeHash(d, leaves, l, Shift(|leaves|, l))
  {
    var c := Shift(|leaves|, l);
    var m := Shift(|leaves|, l + 1);
    assert c == 2 * m;
    VacantPastPartial(d, leaves, l);
    var partial := SubtreeHash(d, leaves, l, c);
    assert SubtreeHash(d, leaves, l + 1, m) == Combine(d, partial, "") == partial;
  }

  /** The first (highest) peak below k, when there is one, is a non-empty hash. */
  lemma {:induction false} LowerPeakNonEmpty(d: Digest, store: seq<seq<Hash>>, leaves: seq<Hash>, k: nat)
    requires NonEmptyDigest(d) && NonEmptyLeaves(leaves)
    requires StoreFor(d, store, leaves) && k <= |store|
    ensures PeaksBelow(store, k) != [] ==> PeaksBelow(store, k)[0] != ""
  {
    if k > 0 {
      var level := store[k - 1];
      if |level| % 2 == 1 {
        CompleteNonEmpty(d, leaves, k - 1, |level| - 1);
      } else {
        LowerPeakNonEmpty(d, store, leaves, k - 1);
      }
    }
  }

  lemma CeilLog2AtMost(n: nat, k: nat)
    requires 1 <= n <= Pow2(k)
    ensures CeilLog2(n) <= k
  {
    if k > 0 {
      Pow2Monotone(k - 1, k);
    }
    CeilLog2Unique(Pow2(k), k);
    CeilLog2Monotone(n, Pow2(k));
  }

  /** Above the root's height, the leftmost node hashes to the root. */
  lemma {:induction false} RootAtHeight(d: Digest, leaves: seq<Hash>, k: nat)
    requires |leaves| > 0 && CeilLog2(|leaves|) <= k
    ensures SubtreeHash(d, leaves, k, 0) == Root(d, leaves)
  {
    if k > CeilLog2(|leaves|) {
      RootAtHeight(d, leaves, k - 1);
      CeilLog2Bounds(|leaves|);
      Pow2Monotone(CeilLog2(|leaves|), k - 1);
      VacantHash(d, leaves, k - 1, 1);
    }
  }

  /** The fold of every peak in the store is the root of the tree over `leaves`. */
  lemma PeaksFoldToRoot(d: Digest, store: seq<seq<Hash>>, leaves: seq<Hash>)
    requires NonEmptyDigest(d) && NonEmptyLeaves(leaves)
    requires StoreFor(d, store, leaves)
    ensures FoldPeaks(d, PeaksBelow(store, |store|)) == Root(d, leaves)
  {
    Spine(d, store, leaves, |store|);
    if |leaves| > 0 {
      ShiftZero(|leaves|, |store|);
      CeilLog2AtMost(|leaves|, |store|);
      RootAtHeight(d, leaves, |store|);
    } else {
      VacantHash(d, leaves, |store|, 0);
    }
  }

  // ---------------------------------------------------------------------
  // `proofs`: reading stored hashes
  // ---------------------------------------------------------------------

  /** The hashes `proofs` returns: every asked position on an existing level. */
  function StoredAt(store: seq<seq<Hash>>, positions: set<Pos>): map<Pos, Hash>
  {
    map p | p in positions && p.0 < |store| && p.1 < |store[p.0]| :: store[p.0][p.1]
  }

  /** Stored hashes are the node hashes of the tree, so what is read back is faithful. */
  lemma StoredFaithful(d: Digest, store: seq<seq<Hash>>, leaves: seq<Hash>, positions: set<Pos>)
    requires StoreFor(d, store, leaves)
    ensures Faithful(d, leaves, LevelSizes(|leaves|), StoredAt(store, positions))
  {
  }

  /** Every complete node of the tree is stored, so asking for such nodes reads them all. */
  lemma StoredComplete(d: Digest, store: seq<seq<Hash>>, leaves: seq<Hash>, positions: set<Pos>)
    requires StoreFor(d, store, leaves)
    requires forall p | p in positions :: p.0 < |LevelSizes(|leaves|)| && p.1 < LevelSizes(|leaves|)[p.0]
    ensures forall p | p in positions :: p.0 < |store| && p.1 < |store[p.0]|
    ensures StoredAt(store, positions).Keys == positions
  {
    forall p | p in positions
      ensures p.0 < |store| && p.1 < |store[p.0]|
    {
      var sizes := LevelSizes(|leaves|);
      assert sizes[p.0] == Shift(|leaves|, p.0);
      if |store| <= p.0 {
        ShiftAntitone(|leaves|, |store|, p.0);
      }
    }
  }

  /** The positions of a consistency proof are all complete nodes of the larger tree. */
  lemma PrefixPositionsComplete(size1: nat, size2: nat)
    requires 0 < size1 <= size2
    ensures forall p | p in PrefixPositionSet(size1, size2) ::
      p.0 < |LevelSizes(size2)| && p.1 < LevelSizes(size2)[p.0]
  {
    ProofPositionsComplete(size1, size2);
    ProofPositionsComplete(size1 - 1, size2);
  }

  /** The hashes the store serves for an inclusion proof make `verify` accept the record. */
  lemma ServedInclusionVerifies(d: Digest, store: seq<seq<Hash>>, leaves: seq<Hash>, i: nat)
    requires StoreFor(d, store, leaves) && i < |leaves|
    ensures var proofs := StoredAt(store, ProofPositionSet(i, |leaves|));
      Verify(d, LogTree(|leaves|, Root(d, leaves)), Record(i, leaves[i]), proofs)
  {
    var positions := ProofPositionSet(i, |leaves|);
    ProofPositionsComplete(i, |leaves|);
    StoredComplete(d, store, leaves, positions);
    StoredFaithful(d, store, leaves, positions);
    InclusionRoundTrip(d, leaves, i, StoredAt(store, positions));
  }

  /**
    The hashes the store serves for a consistency proof at the corrected
    positions make both `verify_tree` calls accept the true tree hashes, and
    reject any other hash for the smaller tree.
  */
  lemma ServedConsistencyVerifies(d: Digest, store: seq<seq<Hash>>, leaves: seq<Hash>, s: nat)
    requires StoreFor(d, store, leaves) && 0 < s < |leaves|
    ensures var proofs := StoredAt(store, PrefixPositionSet(s, |leaves|));
      (forall r :: VerifyTree(d, LogTree(s, r), proofs) <==> r == Root(d, leaves[..s]))
      && VerifyTree(d, LogTree(|leaves|, Root(d, leaves)), proofs)
  {
    var positions := PrefixPositionSet(s, |leaves|);
    PrefixPositionsComplete(s, |leaves|);
    StoredComplete(d, store, leaves, positions);
    StoredFaithful(d, store, leaves, positions);
    ConsistencyRoundTrip(d, leaves, s, StoredAt(store, positions));
  }

  /**
    The `prefix_proof_positions(7, 13)` case: what the store serves at the
    positions as written rebuilds both the tree hash of the first 7 records
    and that of all 13, for every digest.
  */
  lemma ServedConsistencyExample13(d: Digest, store: seq<seq<Hash>>, leaves: seq<Hash>)
    requires StoreFor(d, store, leaves) && |leaves| == 13
    ensures var proofs := StoredAt(store, PrefixPositionSetAsWritten(7, 13));
      VerifyTree(d, LogTree(7, Root(d, leaves[..7])), proofs)
      && VerifyTree(d, LogTree(13, Root(d, leaves)), proofs)
  {
    PrefixPositionsExample();
    ServedConsistencyVerifies(d, store, leaves, 7);
  }

  /**
    What the store serves at the positions `prefix_proof_positions(5, 15)`
    names as written rebuilds the tree hash of the first 5 records but not
    that of all 15 (digest `Dot`).
  */
  lemma ServedAsWrittenConsistencyRejects5To15(store: seq<seq<Hash>>, leaves: seq<Hash>)
    requires StoreFor(Dot, store, leaves) && |leaves| == 15 && NonEmptyLeaves(leaves)
    ensures var proofs := StoredAt(store, PrefixPositionSetAsWritten(5, 15));
      VerifyTree(Dot, LogTree(5, Root(Dot, leaves[..5])), proofs)
      && !VerifyTree(Dot, LogTree(15, Root(Dot, leaves)), proofs)
  {
    var positions := PrefixPositionSetAsWritten(5, 15);
    PrefixPositionsExample15();
    PrefixPositionsComplete(5, 15);
    StoredComplete(Dot, store, leaves, positions);
    StoredFaithful(Dot, store, leaves, positions);
    AsWrittenConsistencyRejects5To15(leaves, StoredAt(store, positions));
  }

  // ---------------------------------------------------------------------
  // The stores of the two-record and thirteen-record logs
  // ---------------------------------------------------------------------

  /** Two records: the root is the digest of both leaf hashes, and record 1's proof is leaf 0. */
  lemma TwoRecords(d: Digest, store: seq<seq<Hash>>, leaves: seq<Hash>)
    requires NonEmptyDigest(d) && NonEmptyLeaves(leaves)
    requires StoreFor(d, store, leaves) && |leaves| == 2
    ensures Root(d, leaves) == NodeHash(d, leaves[0], leaves[1])
    ensures StoredAt(store, ProofPositionSet(1, 2)) == map[(0, 0) := leaves[0]]
    ensures ProofPositionSetAsWritten(1, 2) == ProofPositionSet(1, 2)
  {
    assert CeilLog2(2) == 1;
    assert LevelSizes(2) == [2, 1];
    assert ProofPositionSet(1, 2) == {(0, 0)};
    assert ProofPositionSetAsWritten(1, 2) == {(0, 0)};
    assert |store[0]| == 2;
  }

  /** The eight-leaf subtree of a log: hashes of pairs, then of fours, then of the two halves. */
  function EightHash(d: Digest, leaves: seq<Hash>, start: nat): Hash
    requires start + 8 <= |leaves|
  {
    var l := leaves[start..start + 8];
    NodeHash(d,
      NodeHash(d, NodeHash(d, l[0], l[1]), NodeHash(d, l[2], l[3])),
      NodeHash(d, NodeHash(d, l[4], l[5]), NodeHash(d, l[6], l[7])))
  }

  lemma {:induction false} EightLeaves(d: Digest, leaves: seq<Hash>)
    requires NonEmptyDigest(d) && NonEmptyLeaves(leaves) && |leaves| >= 8
    ensures SubtreeHash(d, leaves, 3, 0) == EightHash(d, leaves, 0)
  {
    assert SubtreeHash(d, leaves, 1, 1) == NodeHash(d, leaves[2], leaves[3]);
    assert SubtreeHash(d, leaves, 1, 3) == NodeHash(d, leaves[6], leaves[7]);
    assert SubtreeHash(d, leaves, 2, 0) == NodeHash(d, NodeHash(d, leaves[0], leaves[1]), NodeHash(d, leaves[2], leaves[3]));
    assert SubtreeHash(d, leaves, 2, 1) == NodeHash(d, NodeHash(d, leaves[4], leaves[5]), NodeHash(d, leaves[6], leaves[7]));
  }

  /** Thirteen records: the hashes served for record 9 and the root they rebuild. */
  lemma ThirteenRecordsProof(d: Digest, store: seq<seq<Hash>>, leaves: seq<Hash>)
    requires NonEmptyDigest(d) && NonEmptyLeaves(leaves)
    requires StoreFor(d, store, leaves) && |leaves| == 13
    ensures StoredAt(store, ProofPositionSet(9, 13)) == map[
      (0, 8) := leaves[8], (1, 5) := NodeHash(d, leaves[10], leaves[11]),
      (3, 0) := EightHash(d, leaves, 0), (0, 12) := leaves[12]]
  {
    ProofPositionsExample13();
    ThirteenRecordsStored(d, store, leaves);
  }

  /** The store of thirteen records holds leaves 8 and 12, the pair (10, 11) and the first eight leaves. */
  lemma ThirteenRecordsStored(d: Digest, store: seq<seq<Hash>>, leaves: seq<Hash>)
    requires NonEmptyDigest(d) && NonEmptyLeaves(leaves)
    requires StoreFor(d, store, leaves) && |leaves| == 13
    ensures StoredAt(store, {(0, 8), (1, 5), (0, 12), (3, 0)}) == map[
      (0, 8) := leaves[8], (1, 5) := NodeHash(d, leaves[10], leaves[11]),
      (3, 0) := EightHash(d, leaves, 0), (0, 12) := leaves[12]]
  {
    Sizes13();
    StoredComplete(d, store, leaves, {(0, 8), (1, 5), (0, 12), (3, 0)});
    EightLeaves(d, leaves);
    assert store[1][5] == SubtreeHash(d, leaves, 1, 5);
    assert store[3][0] == SubtreeHash(d, leaves, 3, 0);
  }

  lemma ThirteenRecordsRoot(d: Digest, leaves: seq<Hash>)
    requires NonEmptyDigest(d) && NonEmptyLeaves(leaves) && |leaves| == 13
    ensures Root(d, leaves) == NodeHash(d, EightHash(d, leaves, 0),
      NodeHash(d, NodeHash(d, NodeHash(d, leaves[8], leaves[9]), NodeHash(d, leaves[10], leaves[11])), leaves[12]))
  {
    assert CeilLog2(13) == 4;
    EightLeaves(d, leaves);
    assert SubtreeHash(d, leaves, 1, 6) == leaves[12];
    assert SubtreeHash(d, leaves, 1, 7) == "";
    assert SubtreeHash(d, leaves, 2, 3) == leaves[12];
    assert SubtreeHash(d, leaves, 2, 2) == NodeHash(d, NodeHash(d, leaves[8], leaves[9]), NodeHash(d, leaves[10], leaves[11]));
  }

  // ---------------------------------------------------------------------
  // The log
  // ---------------------------------------------------------------------

  /** A serialised record stored at `entry` = (offset, length) of `data`. */
  ghost predicate StoredRecord(data: string, entry: (nat, nat), bytes: string) {
    entry.0 + entry.1 <= |data| && data[entry.0..entry.0 + entry.1] == bytes
  }

  /** The first loop of `latest`: the last hash of each odd-sized level, from the top down. */
  method CollectPeaks(store: seq<seq<Hash>>) returns (peaks: seq<Hash>)
    ensures peaks == PeaksBelow(store, |store|)
  {
    peaks := [];
    var k := |store|;
    while k > 0
      invariant 0 <= k <= |store|
      invariant peaks + PeaksBelow(store, k) == PeaksBelow(store, |store|)
    {
      k := k - 1;
      var count := |store[k]|;
      var peak := if count % 2 == 1 then [store[k][count - 1]] else [];
      assert PeaksBelow(store, k + 1) == peak + PeaksBelow(store, k);
      assert (peaks + peak) + PeaksBelow(store, k) == peaks + (peak + PeaksBelow(store, k));
      peaks := peaks + peak;
    }
  }

  /**
    The second loop of `latest`: merge the two lowest peaks until one is
    left; no peak at all gives the empty hash.
  */
  method MergePeaks(d: Digest, peaks: seq<Hash>) returns (top: Hash)
    ensures top == FoldPeaks(d, peaks)
  {
    var r := peaks;
    while |r| > 1
      invariant FoldPeaks(d, r) == FoldPeaks(d, peaks)
    {
      var s1 := r[|r| - 1];
      var s2 := r[|r| - 2];
      var rest := r[..|r| - 2];
      assert r == rest + [s2, s1];
      MergeLowest(d, rest, s2, s1);
      r := rest + [d(s2 + s1)];
    }
    top := if r == [] then "" else r[|r| - 1];
  }

  /** Appending a record's bytes and its index entry keeps every earlier record readable. */
  lemma AppendKeepsRecords<T>(codec: Codec<T>, data: string, index: seq<(nat, nat)>, records: seq<T>, record: T)
    requires |index| == |records|
    requires forall k :: 0 <= k < |index| ==> StoredRecord(data, index[k], codec.encode(records[k]))
    ensures var bytes := codec.encode(record);
      forall k :: 0 <= k <= |index| ==>
        StoredRecord(data + bytes, (index + [(|data|, |bytes|)])[k], codec.encode((records + [record])[k]))
  {
    var bytes := codec.encode(record);
    var data' := data + bytes;
    assert data'[|data|..|data| + |bytes|] == bytes;
    forall k | 0 <= k < |index|
      ensures StoredRecord(data', index[k], codec.encode(records[k]))
    {
      assert data'[..|data|] == data;
      assert data'[index[k].0..index[k].0 + index[k].1] == data[index[k].0..index[k].0 + index[k].1];
    }
  }

  /**
    `FileLog`: `data` is data.bin (serialised records back to back), `index`
    is index.bin (one (offset, length) entry per record) and `hashes[k]` is
    hash{k}.bin. The ghost fields are the records appended so far and their
    leaf hashes.
  */
  class FileLog<T(!new)> {
    const digest: Digest
    const codec: Codec<T>
    var data: string
    var index: seq<(nat, nat)>
    var hashes: seq<seq<Hash>>
    ghost var records: seq<T>
    ghost var leaves: seq<Hash>

    ghost predicate Valid()
      reads this
    {
      NonEmptyDigest(digest)
      && |index| == |records| == |leaves|
      && (forall k :: 0 <= k < |index| ==> StoredRecord(data, index[k], codec.encode(records[k])))
      && (forall k :: 0 <= k < |leaves| ==> leaves[k] == LeafHash(digest, codec, records[k]))
      && StoreFor(digest, hashes, leaves)
    }

    /** `open` on an empty directory: empty data and index files, no hash file. */
    constructor Open(digest: Digest, codec: Codec<T>)
      requires NonEmptyDigest(digest)
      ensures Valid()
      ensures this.digest == digest && this.codec == codec
      ensures data == "" && index == [] && hashes == [] && records == [] && leaves == []
    {
      this.digest := digest;
      this.codec := codec;
      data := "";
      index := [];
      hashes := [];
      records := [];
      leaves := [];
    }

    /** `push_hash`: append `h` at `level`, carrying into the level above on an even count. */
    method PushHash(level: nat, h: Hash)
      requires level <= |hashes|
      modifies this
      ensures hashes == Carry(digest, old(hashes), level, h)
      ensures data == old(data) && index == old(index)
      ensures records == old(records) && leaves == old(leaves)
      decreases |hashes| + 1 - level
    {
      if |hashes| <= level {
        hashes := hashes + [[]];
      }
      hashes := hashes[level := hashes[level] + [h]];
      var count := |hashes[level]|;
      if count % 2 == 0 {
        var previous := hashes[level][count - 2];
        PushHash(level + 1, digest(previous + h));
      }
    }

    /** `append`: store the record, index it and push its leaf hash. */
    method Append(record: T) returns (id: nat, h: Hash)
      requires Valid()
      modifies this
      ensures Valid()
      ensures id == |old(records)| && h == LeafHash(digest, codec, record)
      ensures records == old(records) + [record] && leaves == old(leaves) + [h]
      ensures data == old(data) + codec.encode(record)
      ensures index == old(index) + [(|old(data)|, |codec.encode(record)|)]
      ensures hashes == Carry(digest, old(hashes), 0, h)
    {
      h := LeafHash(digest, codec, record);
      var offset := |data|;
      var bytes := codec.encode(record);
      data := data + bytes;
      id := |index|;
      index := index + [(offset, |bytes|)];
      AppendKeepsStore(digest, hashes, leaves, h);
      PushHash(0, h);
      AppendKeepsRecords(codec, old(data), old(index), records, record);
      records := records + [record];
      leaves := leaves + [h];
    }

    /** `latest`: the size and the fold of the last hash of every odd-sized level. */
    method Latest() returns (tree: LogTree)
      requires Valid()
      ensures tree == LogTree(|leaves|, Root(digest, leaves))
    {
      var size := |index|;
      var peaks := CollectPeaks(hashes);
      var top := MergePeaks(digest, peaks);
      PeaksFoldToRoot(digest, hashes, leaves);
      tree := LogTree(size, top);
    }

    /** `get`: read the index entry, then the serialised record, and decode it. */
    method Get(id: nat) returns (r: Result<T, LogError>)
      requires Valid()
      ensures id >= |records| ==> r == Failure(UnexpectedEof)
      ensures id < |records| ==> (r.Success? <==> codec.decode(codec.encode(records[id])).Some?)
      ensures id < |records| && r.Success? ==> codec.decode(codec.encode(records[id])) == Some(r.value)
      ensures id < |records| && r.Failure? ==> r.error == DecodeFailed
      ensures id < |records| && RoundTrips(codec) ==> r == Success(records[id])
    {
      if id >= |index| {
        return Failure(UnexpectedEof);
      }
      var entry := index[id];
      assert StoredRecord(data, entry, codec.encode(records[id]));
      var bytes := data[entry.0..entry.0 + entry.1];
      match codec.decode(bytes) {
        case Some(x) => r := Success(x);
        case None => r := Failure(DecodeFailed);
      }
    }

    /**
      `proofs`: the stored hash at each asked position whose level exists;
      reading past the end of a level's file fails.
    */
    method Proofs(positions: set<Pos>) returns (r: Result<map<Pos, Hash>, LogError>)
      ensures r.Success? <==> forall p | p in positions && p.0 < |hashes| :: p.1 < |hashes[p.0]|
      ensures r.Success? ==> r.value == StoredAt(hashes, positions)
      ensures r.Failure? ==> r.error == UnexpectedEof
    {
      var m: map<Pos, Hash> := map[];
      var rest := positions;
      while rest != {}
        invariant rest <= positions
        invariant m == StoredAt(hashes, positions - rest)
        invariant forall p | p in positions - rest && p.0 < |hashes| :: p.1 < |hashes[p.0]|
        decreases |rest|
      {
        var p: Pos :| p in rest;
        if p.0 < |hashes| {
          if p.1 >= |hashes[p.0]| {
            return Failure(UnexpectedEof);
          }
          m := m[p := hashes[p.0][p.1]];
        }
        rest := rest - {p};
      }
      return Success(m);
    }
  }
}
