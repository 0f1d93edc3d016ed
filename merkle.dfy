/**
  Hash reconstruction and proof checking (transparentlog_core/src/base.rs:
  `calc_hash`, `verify`, `verify_tree`), together with the reference tree hash
  they are proved against.
*/
module Merkle {
  import opened Arith
  import opened Hashing
  import opened TreeMath

  /**
    Reference hash of node (level, index) of the tree over the leaf hashes
    `leaves`: a leaf past the end hashes to "", and a node whose right child is
    empty takes the hash of its left child unchanged.
  */
  function SubtreeHash(d: Digest, leaves: seq<Hash>, level: nat, index: nat): Hash
    decreases level
  {
    if level == 0 then (if index < |leaves| then leaves[index] else "")
    else Combine(d, SubtreeHash(d, leaves, level - 1, 2 * index), SubtreeHash(d, leaves, level - 1, 2 * index + 1))
  }

  /** The tree hash of a log: the hash of node (ceil(log2 n), 0), or "" for the empty log. */
  function Root(d: Digest, leaves: seq<Hash>): Hash
  {
    if |leaves| == 0 then "" else SubtreeHash(d, leaves, CeilLog2(|leaves|), 0)
  }

  /**
    `calc_hash`: a stored hash is used for a complete node that has one;
    otherwise the node is rebuilt from its two children; a leaf with nothing
    stored yields "".
  */
  function CalcHash(d: Digest, level: nat, index: nat, proofs: map<Pos, Hash>, sizes: seq<nat>): Hash
    requires level < |sizes|
    decreases level
  {
    if index < sizes[level] && (level, index) in proofs then proofs[(level, index)]
    else if level > 0 then
      Combine(d, CalcHash(d, level - 1, 2 * index, proofs, sizes), CalcHash(d, level - 1, 2 * index + 1, proofs, sizes))
    else ""
  }

  /** `verify` as written: the record's hash is stored at (0, id) whatever the id. */
  function VerifyAsWritten(d: Digest, tree: LogTree, record: Record, proofs: map<Pos, Hash>): bool
  {
    var sizes := LevelSizes(tree.size);
    if sizes == [] then false
    else tree.hash == CalcHash(d, |sizes| - 1, 0, proofs[(0, record.id) := record.hash], sizes)
  }

  /** `verify` with the missing range check: a record past the end of the tree is rejected. */
  function Verify(d: Digest, tree: LogTree, record: Record, proofs: map<Pos, Hash>): bool
  {
    var sizes := LevelSizes(tree.size);
    if sizes == [] || record.id >= tree.size then false
    else tree.hash == CalcHash(d, |sizes| - 1, 0, proofs[(0, record.id) := record.hash], sizes)
  }

  /** `verify_tree`: the tree hash is rebuilt from the stored hashes alone. */
  function VerifyTree(d: Digest, tree: LogTree, proofs: map<Pos, Hash>): bool
  {
    var sizes := LevelSizes(tree.size);
    if sizes == [] then false
    else tree.hash == CalcHash(d, |sizes| - 1, 0, proofs, sizes)
  }

  // ---------------------------------------------------------------------
  // When the stored hashes determine a node
  // ---------------------------------------------------------------------

  /**
    The positions in `keys` determine node (level, index): it is stored and
    complete, or it is a leaf past the end, or both its children are determined.
  */
  ghost predicate Covers(keys: set<Pos>, sizes: seq<nat>, level: nat, index: nat)
    requires level < |sizes|
    decreases level
  {
    (index < sizes[level] && (level, index) in keys)
    || (level == 0 && index >= sizes[0])
    || (level > 0 && Covers(keys, sizes, level - 1, 2 * index) && Covers(keys, sizes, level - 1, 2 * index + 1))
  }

  /** Every stored hash of a complete node is that node's hash in the tree over `leaves`. */
  ghost predicate Faithful(d: Digest, leaves: seq<Hash>, sizes: seq<nat>, proofs: map<Pos, Hash>)
  {
    forall p | p in proofs && p.0 < |sizes| && p.1 < sizes[p.0] :: proofs[p] == SubtreeHash(d, leaves, p.0, p.1)
  }

  /** With faithful stored hashes, `calc_hash` rebuilds every node they determine. */
  lemma {:induction false} Reconstruct(d: Digest, leaves: seq<Hash>, sizes: seq<nat>, proofs: map<Pos, Hash>, level: nat, index: nat)
    requires level < |sizes| && sizes[0] == |leaves|
    requires Faithful(d, leaves, sizes, proofs)
    requires Covers(proofs.Keys, sizes, level, index)
    ensures CalcHash(d, level, index, proofs, sizes) == SubtreeHash(d, leaves, level, index)
    decreases level
  {
    if index < sizes[level] && (level, index) in proofs {
    } else if level > 0 {
      Reconstruct(d, leaves, sizes, proofs, level - 1, 2 * index);
      Reconstruct(d, leaves, sizes, proofs, level - 1, 2 * index + 1);
    }
  }

  /** A node that lies wholly past the last complete node covers only empty leaves. */
  lemma {:induction false} VacantCovered(keys: set<Pos>, sizes: seq<nat>, level: nat, index: nat)
    requires Halving(sizes) && level < |sizes| && index > sizes[level]
    ensures Covers(keys, sizes, level, index)
    decreases level
  {
    if level > 0 {
      VacantCovered(keys, sizes, level - 1, 2 * index);
      VacantCovered(keys, sizes, level - 1, 2 * index + 1);
    }
  }

  /** The corrected walk down a partial node collects enough to determine it. */
  lemma {:induction false} SpanCovered(keys: set<Pos>, sizes: seq<nat>, level: nat, index: nat)
    requires Halving(sizes) && level < |sizes| && index >= sizes[level]
    requires SpanBelow(level, index, sizes) <= keys
    ensures Covers(keys, sizes, level, index)
    decreases level
  {
    if level > 0 {
      if 2 * index < sizes[level - 1] {
        SpanCovered(keys, sizes, level - 1, 2 * index + 1);
      } else {
        SpanCovered(keys, sizes, level - 1, 2 * index);
        VacantCovered(keys, sizes, level - 1, 2 * index + 1);
      }
    }
  }

  /** A determined node plus the siblings `proof_step` names determines its parent. */
  lemma SiblingStep(keys: set<Pos>, sizes: seq<nat>, level: nat, index: nat)
    requires Halving(sizes) && level + 1 < |sizes| && index <= sizes[level]
    requires SiblingsAt(level, index, sizes) <= keys
    requires Covers(keys, sizes, level, index)
    ensures Covers(keys, sizes, level + 1, index / 2)
  {
    if index % 2 == 1 {
      assert Covers(keys, sizes, level, index - 1);
    } else if index + 1 < sizes[level] {
      assert Covers(keys, sizes, level, index + 1);
    } else {
      SpanCovered(keys, sizes, level, index + 1);
    }
  }

  /** Climbing from a determined node on the path of `leaf`, the proof determines the root. */
  lemma {:induction false} PathCovers(keys: set<Pos>, sizes: seq<nat>, level: nat, index: nat, leaf: nat)
    requires Halving(sizes) && level < |sizes| && index <= sizes[level]
    requires index == Shift(leaf, level) && leaf < Pow2(|sizes| - 1)
    requires PathProof(level, index, sizes) <= keys
    requires Covers(keys, sizes, level, index)
    ensures Covers(keys, sizes, |sizes| - 1, 0)
    decreases |sizes| - level
  {
    if level == |sizes| - 1 {
      ShiftZero(leaf, level);
    } else {
      SiblingStep(keys, sizes, level, index);
      PathCovers(keys, sizes, level + 1, index / 2, leaf);
    }
  }

  // ---------------------------------------------------------------------
  // Inclusion proofs
  // ---------------------------------------------------------------------

  /** The sizes of a tree over n leaves, and the facts about them every proof below uses. */
  lemma SizesFacts(n: nat)
    requires n > 0
    ensures |LevelSizes(n)| == CeilLog2(n) + 1 && LevelSizes(n)[0] == n
    ensures Halving(LevelSizes(n)) && n <= Pow2(|LevelSizes(n)| - 1)
  {
    LevelSizesHalve(n);
    CeilLog2Bounds(n);
  }

  /**
    Inclusion: the hashes stored at the corrected proof positions, together
    with the record itself, rebuild the tree hash, so an honest record verifies.
  */
  lemma InclusionRoundTrip(d: Digest, leaves: seq<Hash>, i: nat, proofs: map<Pos, Hash>)
    requires i < |leaves|
    requires ProofPositionSet(i, |leaves|) <= proofs.Keys
    requires Faithful(d, leaves, LevelSizes(|leaves|), proofs)
    ensures Verify(d, LogTree(|leaves|, Root(d, leaves)), Record(i, leaves[i]), proofs)
  {
    var sizes := LevelSizes(|leaves|);
    SizesFacts(|leaves|);
    var m := proofs[(0, i) := leaves[i]];
    assert Covers(m.Keys, sizes, 0, i);
    PathCovers(m.Keys, sizes, 0, i, i);
    Reconstruct(d, leaves, sizes, m, |sizes| - 1, 0);
  }

  /** Changing leaf i leaves every node off the path of i unchanged. */
  lemma {:induction false} UpdateFrame(d: Digest, leaves: seq<Hash>, i: nat, h: Hash, level: nat, index: nat)
    requires i < |leaves| && index != Shift(i, level)
    ensures SubtreeHash(d, leaves[i := h], level, index) == SubtreeHash(d, leaves, level, index)
    decreases level
  {
    if level > 0 {
      var below := Shift(i, level - 1);
      assert below / 2 != index;
      UpdateFrame(d, leaves, i, h, level - 1, 2 * index);
      UpdateFrame(d, leaves, i, h, level - 1, 2 * index + 1);
    }
  }

  /** Every node the corrected walk below partial node (level, x) names lies under x. */
  lemma {:induction false} SpanBelowUnder(level: nat, x: nat, sizes: seq<nat>)
    requires level < |sizes|
    ensures forall p | p in SpanBelow(level, x, sizes) :: p.0 < level && Shift(p.1, level - p.0) == x
    decreases level
  {
    if level > 0 {
      var next := if 2 * x < sizes[level - 1] then 2 * x + 1 else 2 * x;
      SpanBelowUnder(level - 1, next, sizes);
      forall p | p in SpanBelow(level - 1, next, sizes)
        ensures Shift(p.1, level - p.0) == x
      {
        assert Shift(p.1, level - p.0) == Shift(p.1, level - 1 - p.0) / 2;
      }
    }
  }

  lemma {:induction false} PathProofOffPath(level: nat, index: nat, sizes: seq<nat>, i: nat)
    requires level < |sizes| && index == Shift(i, level)
    ensures forall p | p in PathProof(level, index, sizes) :: p.1 != Shift(i, p.0)
    decreases |sizes| - level
  {
    SpanBelowUnder(level, index + 1, sizes);
    forall p | p in SpanBelow(level, index + 1, sizes)
      ensures p.1 != Shift(i, p.0)
    {
      ShiftAdd(i, p.0, level - p.0);
    }
    if level < |sizes| - 1 {
      PathProofOffPath(level + 1, index / 2, sizes, i);
    }
  }

  /** No proof position of record i is an ancestor of leaf i (nor the leaf itself). */
  lemma ProofPositionsOffPath(i: nat, size: nat)
    ensures forall p | p in ProofPositionSet(i, size) :: p.1 != Shift(i, p.0)
  {
    if size > 0 {
      PathProofOffPath(0, i, LevelSizes(size), i);
    }
  }

  /**
    What a successful `verify` means: with faithful hashes at the proof
    positions (and none on the record's own path), record (i, h) verifies
    against tree hash r exactly when r is the tree hash of the log whose leaf i
    is h. A wrong hash therefore passes only by a digest collision.
  */
  lemma VerifyExactly(d: Digest, leaves: seq<Hash>, i: nat, h: Hash, r: Hash, proofs: map<Pos, Hash>)
    requires i < |leaves|
    requires ProofPositionSet(i, |leaves|) <= proofs.Keys
    requires forall p | p in proofs :: p.1 != Shift(i, p.0)
    requires Faithful(d, leaves, LevelSizes(|leaves|), proofs)
    ensures Verify(d, LogTree(|leaves|, r), Record(i, h), proofs) <==> r == Root(d, leaves[i := h])
  {
    var sizes := LevelSizes(|leaves|);
    SizesFacts(|leaves|);
    var changed := leaves[i := h];
    var m := proofs[(0, i) := h];
    FaithfulAfterUpdate(d, leaves, i, h, proofs);
    assert Covers(m.Keys, sizes, 0, i);
    PathCovers(m.Keys, sizes, 0, i, i);
    Reconstruct(d, changed, sizes, m, |sizes| - 1, 0);
    assert Root(d, changed) == CalcHash(d, |sizes| - 1, 0, m, sizes);
  }

  /** Off-path hashes faithful to a log stay faithful once leaf i is replaced by the record. */
  lemma FaithfulAfterUpdate(d: Digest, leaves: seq<Hash>, i: nat, h: Hash, proofs: map<Pos, Hash>)
    requires i < |leaves|
    requires forall p | p in proofs :: p.1 != Shift(i, p.0)
    requires Faithful(d, leaves, LevelSizes(|leaves|), proofs)
    ensures Faithful(d, leaves[i := h], LevelSizes(|leaves|), proofs[(0, i) := h])
  {
    var sizes := LevelSizes(|leaves|);
    var m := proofs[(0, i) := h];
    forall p | p in m && p.0 < |sizes| && p.1 < sizes[p.0]
      ensures m[p] == SubtreeHash(d, leaves[i := h], p.0, p.1)
    {
      if p != (0, i) {
        UpdateFrame(d, leaves, i, h, p.0, p.1);
      }
    }
  }

  /**
    `verify` as written accepts ANY hash for record id n in a tree of n
    records, once the hashes named by `proof_positions(n, n)` are supplied:
    they already determine the root, and the record lands on a position
    `calc_hash` never reads.
  */
  lemma VerifyAsWrittenAcceptsPastEnd(d: Digest, leaves: seq<Hash>, h: Hash, proofs: map<Pos, Hash>)
    requires |leaves| > 0
    requires ProofPositionSetAsWritten(|leaves|, |leaves|) <= proofs.Keys
    requires Faithful(d, leaves, LevelSizes(|leaves|), proofs)
    ensures VerifyAsWritten(d, LogTree(|leaves|, Root(d, leaves)), Record(|leaves|, h), proofs)
    ensures !Verify(d, LogTree(|leaves|, Root(d, leaves)), Record(|leaves|, h), proofs)
  {
    PastEndPositionsAgree(|leaves|);
    var n := |leaves|;
    var sizes := LevelSizes(n);
    SizesFacts(n);
    TopLevelSize(n);
    var m := proofs[(0, n) := h];
    assert Faithful(d, leaves, sizes, m);
    FrontierUp(m.Keys, sizes, sizes, 0);
    Reconstruct(d, leaves, sizes, m, |sizes| - 1, 0);
  }

  // ---------------------------------------------------------------------
  // Consistency ("prefix") proofs
  // ---------------------------------------------------------------------

  /**
    Climbing the right edge of a tree of s leaves (node sizes1[l] on each
    level): the left neighbours named on the path of leaf s determine its root.
  */
  lemma {:induction false} FrontierUp(keys: set<Pos>, sizes1: seq<nat>, sizes2: seq<nat>, level: nat)
    requires Halving(sizes1) && |sizes1| <= |sizes2| && level < |sizes1|
    requires sizes1[|sizes1| - 1] <= 1
    requires Covers(keys, sizes1, level, sizes1[level])
    requires PathProof(level, sizes1[level], sizes2) <= keys
    ensures Covers(keys, sizes1, |sizes1| - 1, 0)
    decreases |sizes1| - level
  {
    if level == |sizes1| - 1 {
      if sizes1[level] == 1 {
        assert (level, 0) in SiblingsAt(level, 1, sizes2);
      }
    } else {
      var p := sizes1[level + 1];
      if sizes1[level] % 2 == 1 {
        assert (level, sizes1[level] - 1) in SiblingsAt(level, sizes1[level], sizes2);
        assert Covers(keys, sizes1, level, 2 * p);
      } else {
        VacantCovered(keys, sizes1, level, 2 * p + 1);
      }
      assert Covers(keys, sizes1, level + 1, p);
      FrontierUp(keys, sizes1, sizes2, level + 1);
    }
  }

  /**
    The paths of the adjacent leaves s - 1 and s, climbed together until they
    meet, name each other's node at the meeting level; from there the path of
    s determines the root.
  */
  lemma {:induction false} TwoPathsCover(keys: set<Pos>, sizes: seq<nat>, level: nat, x: nat, y: nat, s: nat)
    requires Halving(sizes) && level + 1 < |sizes|
    requires s < Pow2(|sizes| - 1) && y == Shift(s, level) && x + 1 == y && y <= sizes[level]
    requires PathProof(level, x, sizes) <= keys && PathProof(level, y, sizes) <= keys
    ensures Covers(keys, sizes, |sizes| - 1, 0)
    decreases |sizes| - level
  {
    if y % 2 == 1 {
      assert (level, x) in SiblingsAt(level, y, sizes);
      assert Covers(keys, sizes, level, x);
      if x + 1 < sizes[level] {
        assert (level, y) in SiblingsAt(level, x, sizes);
      } else {
        SpanCovered(keys, sizes, level, y);
      }
      assert Covers(keys, sizes, level + 1, y / 2);
      PathCovers(keys, sizes, level + 1, y / 2, s);
    } else {
      ShiftZero(s, level + 1);
      LevelBelow(level + 1, |sizes| - 1, s);
      TwoPathsCover(keys, sizes, level + 1, x / 2, y / 2, s);
    }
  }

  /** A complete node of a prefix has the same hash in the prefix and in the whole log. */
  lemma {:induction false} PrefixFrame(d: Digest, leaves: seq<Hash>, s: nat, level: nat, index: nat)
    requires s <= |leaves| && (index + 1) * Pow2(level) <= s
    ensures SubtreeHash(d, leaves[..s], level, index) == SubtreeHash(d, leaves, level, index)
    decreases level
  {
    if level == 0 {
      assert index < s;
    } else {
      ChildrenEnd(index, level);
      PrefixFrame(d, leaves, s, level - 1, 2 * index);
      PrefixFrame(d, leaves, s, level - 1, 2 * index + 1);
    }
  }

  /** The right child of node (level, index) ends where the node ends. */
  lemma ChildrenEnd(index: nat, level: nat)
    requires level > 0
    ensures (2 * index + 1) * Pow2(level - 1) <= (2 * index + 2) * Pow2(level - 1) == (index + 1) * Pow2(level)
  {
    var q := Pow2(level - 1);
    assert Pow2(level) == 2 * q;
    calc {
      (2 * index + 2) * q;
      2 * ((index + 1) * q);
      (index + 1) * (2 * q);
    }
  }

  /** Hashes faithful to a log are faithful to each of its prefixes. */
  lemma FaithfulToPrefix(d: Digest, leaves: seq<Hash>, s: nat, proofs: map<Pos, Hash>)
    requires 0 < s <= |leaves|
    requires Faithful(d, leaves, LevelSizes(|leaves|), proofs)
    ensures Faithful(d, leaves[..s], LevelSizes(s), proofs)
  {
    var sizes1 := LevelSizes(s);
    var sizes2 := LevelSizes(|leaves|);
    HeightMonotone(s, |leaves|);
    forall p | p in proofs && p.0 < |sizes1| && p.1 < sizes1[p.0]
      ensures proofs[p] == SubtreeHash(d, leaves[..s], p.0, p.1)
    {
      ShiftMonotone(s, |leaves|, p.0);
      ShiftBelow(p.1, s, p.0);
      PrefixFrame(d, leaves, s, p.0, p.1);
    }
  }

  /**
    Consistency, with the corrected positions: the hashes at
    `prefix_proof_positions(s, n)` rebuild both the tree hash of the first s
    records and that of all n records, so an honest log passes both
    `verify_tree` calls of `check_record`, and a trusted hash that is not the
    tree hash of the first s records fails the first of them.
  */
  lemma ConsistencyRoundTrip(d: Digest, leaves: seq<Hash>, s: nat, proofs: map<Pos, Hash>)
    requires 0 < s < |leaves|
    requires PrefixPositionSet(s, |leaves|) <= proofs.Keys
    requires Faithful(d, leaves, LevelSizes(|leaves|), proofs)
    ensures forall r :: VerifyTree(d, LogTree(s, r), proofs) <==> r == Root(d, leaves[..s])
    ensures forall r :: VerifyTree(d, LogTree(|leaves|, r), proofs) <==> r == Root(d, leaves)
  {
    OldRootRebuilt(d, leaves, s, proofs);
    NewRootRebuilt(d, leaves, s, proofs);
    TreeHashUnique(d, s, Root(d, leaves[..s]), proofs);
    TreeHashUnique(d, |leaves|, Root(d, leaves), proofs);
  }

  /** `verify_tree` accepts one tree hash for a given size and set of stored hashes. */
  lemma TreeHashUnique(d: Digest, size: nat, h: Hash, proofs: map<Pos, Hash>)
    requires VerifyTree(d, LogTree(size, h), proofs)
    ensures forall r :: VerifyTree(d, LogTree(size, r), proofs) <==> r == h
  {
  }

  lemma OldRootRebuilt(d: Digest, leaves: seq<Hash>, s: nat, proofs: map<Pos, Hash>)
    requires 0 < s < |leaves|
    requires ProofPositionSet(s, |leaves|) <= proofs.Keys
    requires Faithful(d, leaves, LevelSizes(|leaves|), proofs)
    ensures VerifyTree(d, LogTree(s, Root(d, leaves[..s])), proofs)
  {
    var sizes1 := LevelSizes(s);
    var sizes2 := LevelSizes(|leaves|);
    SizesFacts(s);
    SizesFacts(|leaves|);
    TopLevelSize(s);
    HeightMonotone(s, |leaves|);
    FaithfulToPrefix(d, leaves, s, proofs);
    assert Covers(proofs.Keys, sizes1, 0, sizes1[0]);
    FrontierUp(proofs.Keys, sizes1, sizes2, 0);
    Reconstruct(d, leaves[..s], sizes1, proofs, |sizes1| - 1, 0);
  }

  lemma NewRootRebuilt(d: Digest, leaves: seq<Hash>, s: nat, proofs: map<Pos, Hash>)
    requires 0 < s < |leaves|
    requires ProofPositionSet(s, |leaves|) <= proofs.Keys
    requires ProofPositionSet(s - 1, |leaves|) <= proofs.Keys
    requires Faithful(d, leaves, LevelSizes(|leaves|), proofs)
    ensures VerifyTree(d, LogTree(|leaves|, Root(d, leaves)), proofs)
  {
    var sizes := LevelSizes(|leaves|);
    SizesFacts(|leaves|);
    TwoPathsCover(proofs.Keys, sizes, 0, s - 1, s, s);
    Reconstruct(d, leaves, sizes, proofs, |sizes| - 1, 0);
  }

  // ---------------------------------------------------------------------
  // A log of seven records, with a digest that appends "." to its input
  // ---------------------------------------------------------------------

  function Dot(s: string): (h: string)
    ensures h != ""
  {
    s + "."
  }

  function SevenLeaves(): seq<Hash> {
    ["a", "b", "c", "d", "e", "f", "g"]
  }

  /** The hashes a faithful store returns for the positions `proof_positions(0, 7)` names as written. */
  function SevenAsWrittenProofs(): map<Pos, Hash> {
    map[(0, 1) := "b", (1, 1) := "cd.", (1, 2) := "ef."]
  }

  /**
    The positions `proof_positions(0, 7)` returns as written leave leaf 6
    out, so record 0 fails to verify against the honest tree hash even with
    every hash it asks for supplied faithfully.
  */
  lemma AsWrittenProofRejectsRecord0Of7()
    ensures SevenAsWrittenProofs().Keys == ProofPositionSetAsWritten(0, 7)
    ensures Faithful(Dot, SevenLeaves(), LevelSizes(7), SevenAsWrittenProofs())
    ensures !Verify(Dot, LogTree(7, Root(Dot, SevenLeaves())), Record(0, "a"), SevenAsWrittenProofs())
  {
    ProofPositionsExample7();
    SevenNodes();
    Sizes7();
    SevenRoot();
    SevenAsWrittenRebuild();
    assert SevenAsWrittenProofs()[(0, 0) := "a"] == map[(0, 1) := "b", (1, 1) := "cd.", (1, 2) := "ef.", (0, 0) := "a"];
    assert |"ab.cd..ef.."| != |"ab.cd..ef.g.."|;
  }

  /** The hashes a faithful store returns for the corrected positions: leaf 6 is added. */
  function SevenCorrectedProofs(): map<Pos, Hash> {
    SevenAsWrittenProofs()[(0, 6) := "g"]
  }

  /** With the corrected positions the same record verifies. */
  lemma CorrectedProofAcceptsRecord0Of7()
    ensures SevenCorrectedProofs().Keys == ProofPositionSet(0, 7)
    ensures Verify(Dot, LogTree(7, Root(Dot, SevenLeaves())), Record(0, "a"), SevenCorrectedProofs())
  {
    SevenCorrectedFaithful();
    InclusionRoundTrip(Dot, SevenLeaves(), 0, SevenCorrectedProofs());
  }

  lemma SevenCorrectedFaithful()
    ensures SevenCorrectedProofs().Keys == ProofPositionSet(0, 7)
    ensures Faithful(Dot, SevenLeaves(), LevelSizes(7), SevenCorrectedProofs())
  {
    ProofPositionsExample7();
    SevenNodes();
    Sizes7();
  }

  lemma SevenNodes()
    ensures SubtreeHash(Dot, SevenLeaves(), 0, 1) == "b"
    ensures SubtreeHash(Dot, SevenLeaves(), 0, 6) == "g"
    ensures SubtreeHash(Dot, SevenLeaves(), 1, 1) == "cd."
    ensures SubtreeHash(Dot, SevenLeaves(), 1, 2) == "ef."
  {
  }

  lemma SevenRoot()
    ensures Root(Dot, SevenLeaves()) == "ab.cd..ef.g.."
  {
    var leaves := SevenLeaves();
    assert CeilLog2(7) == 3;
    assert SubtreeHash(Dot, leaves, 1, 0) == "ab.";
    assert SubtreeHash(Dot, leaves, 1, 1) == "cd.";
    assert SubtreeHash(Dot, leaves, 1, 2) == "ef.";
    assert SubtreeHash(Dot, leaves, 1, 3) == "g";
    assert SubtreeHash(Dot, leaves, 2, 0) == "ab.cd..";
    assert SubtreeHash(Dot, leaves, 2, 1) == "ef.g.";
  }

  /** What `calc_hash` rebuilds for record 0 from the as-written positions: the tree without leaf 6. */
  lemma SevenAsWrittenRebuild()
    ensures CalcHash(Dot, 3, 0, map[(0, 1) := "b", (1, 1) := "cd.", (1, 2) := "ef.", (0, 0) := "a"], [7, 3, 1, 0])
      == "ab.cd..ef.."
  {
    var m0 := map[(0, 1) := "b", (1, 1) := "cd.", (1, 2) := "ef.", (0, 0) := "a"];
    var sizes: seq<nat> := [7, 3, 1, 0];
    assert CalcHash(Dot, 1, 3, m0, sizes) == "";
    assert CalcHash(Dot, 1, 0, m0, sizes) == "ab.";
    assert CalcHash(Dot, 2, 1, m0, sizes) == "ef.";
    assert CalcHash(Dot, 2, 0, m0, sizes) == "ab.cd..";
  }

  // ---------------------------------------------------------------------
  // A log of fifteen records: a consistency proof from 5 records as written
  // ---------------------------------------------------------------------

  /**
    A client that trusts the honest tree hash of 5 records and is shown the
    honest head of any log of 15 records rejects it when the store answers
    exactly the positions `prefix_proof_positions(5, 15)` names as written,
    every hash faithful: the old tree hash is rebuilt, the new one is not,
    because the pair of leaves 12 and 13 is missing.
  */
  lemma AsWrittenConsistencyRejects5To15(leaves: seq<Hash>, proofs: map<Pos, Hash>)
    requires |leaves| == 15 && forall i | 0 <= i < 15 :: leaves[i] != ""
    requires proofs.Keys == PrefixPositionSetAsWritten(5, 15)
    requires Faithful(Dot, leaves, LevelSizes(15), proofs)
    ensures VerifyTree(Dot, LogTree(5, Root(Dot, leaves[..5])), proofs)
    ensures !VerifyTree(Dot, LogTree(15, Root(Dot, leaves)), proofs)
  {
    PrefixPositionsExample15();
    AsWrittenOldRoot5(leaves, proofs);
    AsWrittenNewRoot15(leaves, proofs);
  }

  lemma AsWrittenOldRoot5(leaves: seq<Hash>, proofs: map<Pos, Hash>)
    requires |leaves| == 15
    requires proofs.Keys == {(0, 4), (0, 5), (1, 3), (2, 0), (2, 2), (0, 14)}
    requires Faithful(Dot, leaves, LevelSizes(15), proofs)
    ensures VerifyTree(Dot, LogTree(5, Root(Dot, leaves[..5])), proofs)
  {
    var sizes := LevelSizes(5);
    var keys := proofs.Keys;
    Sizes5();
    FaithfulToPrefix(Dot, leaves, 5, proofs);
    assert Covers(keys, sizes, 1, 2);
    assert Covers(keys, sizes, 1, 3);
    assert Covers(keys, sizes, 2, 1);
    assert Covers(keys, sizes, 3, 0);
    Reconstruct(Dot, leaves[..5], sizes, proofs, 3, 0);
  }

  lemma AsWrittenNewRoot15(leaves: seq<Hash>, proofs: map<Pos, Hash>)
    requires |leaves| == 15 && forall i | 0 <= i < 15 :: leaves[i] != ""
    requires proofs.Keys == {(0, 4), (0, 5), (1, 3), (2, 0), (2, 2), (0, 14)}
    requires Faithful(Dot, leaves, LevelSizes(15), proofs)
    ensures !VerifyTree(Dot, LogTree(15, Root(Dot, leaves)), proofs)
  {
    Sizes15();
    var sizes := LevelSizes(15);
    LeftHalfRebuilt15(leaves, proofs, sizes);
    KeysOf5To15(proofs.Keys);
    RightHalfShort15(leaves, proofs, sizes);
    var left := SubtreeHash(Dot, leaves, 3, 0);
    assert Root(Dot, leaves) == Dot(left + SubtreeHash(Dot, leaves, 3, 1));
    assert CalcHash(Dot, 4, 0, proofs, sizes) == Dot(left + CalcHash(Dot, 3, 1, proofs, sizes));
  }

  /** The as-written positions from 5 to 15, position by position. */
  lemma KeysOf5To15(keys: set<Pos>)
    requires keys == {(0, 4), (0, 5), (1, 3), (2, 0), (2, 2), (0, 14)}
    ensures forall p | p in keys ::
      (p.0 == 0 && (p.1 == 4 || p.1 == 5 || p.1 == 14)) || (p.0 == 1 && p.1 == 3) || (p.0 == 2 && (p.1 == 0 || p.1 == 2))
    ensures (2, 2) in keys && (0, 14) in keys
  {
  }

  /** Leaves 0..7 of 15: the as-written positions determine node (3, 0). */
  lemma LeftHalfRebuilt15(leaves: seq<Hash>, proofs: map<Pos, Hash>, sizes: seq<nat>)
    requires |leaves| == 15 && sizes == [15, 7, 3, 1, 0]
    requires proofs.Keys == {(0, 4), (0, 5), (1, 3), (2, 0), (2, 2), (0, 14)}
    requires Faithful(Dot, leaves, sizes, proofs)
    ensures CalcHash(Dot, 3, 0, proofs, sizes) == SubtreeHash(Dot, leaves, 3, 0)
  {
    var keys := proofs.Keys;
    assert Covers(keys, sizes, 1, 2);
    assert Covers(keys, sizes, 2, 1);
    assert Covers(keys, sizes, 3, 0);
    Reconstruct(Dot, leaves, sizes, proofs, 3, 0);
  }

  /** Leaves 8..14 of 15: without node (1, 6) the rebuilt node (3, 1) is shorter than the true one. */
  lemma RightHalfShort15(leaves: seq<Hash>, proofs: map<Pos, Hash>, sizes: seq<nat>)
    requires |leaves| == 15 && forall i | 0 <= i < 15 :: leaves[i] != ""
    requires sizes == [15, 7, 3, 1, 0]
    requires (2, 2) in proofs && proofs[(2, 2)] == SubtreeHash(Dot, leaves, 2, 2)
    requires (0, 14) in proofs && proofs[(0, 14)] == leaves[14]
    requires (1, 6) !in proofs && (0, 12) !in proofs && (0, 13) !in proofs
    ensures 0 < |CalcHash(Dot, 3, 1, proofs, sizes)| < |SubtreeHash(Dot, leaves, 3, 1)|
  {
    assert CalcHash(Dot, 1, 6, proofs, sizes) == "";
    assert CalcHash(Dot, 1, 7, proofs, sizes) == leaves[14];
    assert CalcHash(Dot, 2, 3, proofs, sizes) == Dot(leaves[14]);
    assert SubtreeHash(Dot, leaves, 1, 7) == leaves[14];
    assert SubtreeHash(Dot, leaves, 2, 3) == Dot(Dot(leaves[12] + leaves[13]) + leaves[14]);
  }
}
