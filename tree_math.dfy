/**
  Tree arithmetic of the log (transparentlog_core/src/base.rs): the number of
  complete nodes on each level, and the node coordinates that make up an
  inclusion proof and a consistency ("prefix") proof.
*/
module TreeMath {
  import opened Arith
  import opened Wrappers
  import opened Hashing

  /** Number of levels `tree_sizes` reports: 0 for the empty log, else 1 + ceil(log2 n). */
  function Height(n: nat): nat {
    if n == 0 then 0 else CeilLog2(n) + 1
  }

  /** Level k of a tree over n leaves holds n >> k (n / 2^k) complete nodes. */
  function LevelSizes(n: nat): (sizes: seq<nat>)
  {
    seq(Height(n), k requires 0 <= k < Height(n) => Shift(n, k))
  }

  /** Each level holds half as many complete nodes as the one below, rounded down. */
  ghost predicate Halving(sizes: seq<nat>) {
    forall l :: 0 < l < |sizes| ==> sizes[l] == sizes[l - 1] / 2
  }

  /** `tree_sizes`: the loop halves `sz` and doubles `height` until height reaches the size. */
  method TreeSizes(size: nat) returns (v: seq<nat>)
    ensures v == LevelSizes(size)
    ensures size == 0 <==> v == []
  {
    v := [];
    var sz := size;
    var height := 1;
    if sz > 0 {
      v := v + [sz];
      ghost var k: nat := 0;
      while height < size && sz > 0
        invariant height == Pow2(k) && sz == Shift(size, k)
        invariant |v| == k + 1
        invariant forall j :: 0 <= j < |v| ==> v[j] == Shift(size, j)
        invariant k > 0 ==> Pow2(k - 1) < size
        decreases size - height
      {
        if sz == 1 {
          sz := 0;
        } else {
          sz := sz / 2;
        }
        HalveLevel(size, k);
        v := v + [sz];
        height := height * 2;
        k := k + 1;
      }
      TreeSizesExit(size, k);
      LevelSizesByEntries(size, v);
    }
  }

  lemma LevelSizesByEntries(size: nat, v: seq<nat>)
    requires |v| == Height(size)
    requires forall j :: 0 <= j < |v| ==> v[j] == Shift(size, j)
    ensures v == LevelSizes(size)
  {
  }

  /** One round of the `tree_sizes` loop moves from level k to level k + 1. */
  lemma HalveLevel(size: nat, k: nat)
    ensures Pow2(k + 1) == 2 * Pow2(k)
    ensures Shift(size, k + 1) == (if Shift(size, k) == 1 then 0 else Shift(size, k) / 2)
  {
  }

  /** When the loop stops after k rounds, k is the ceiling of log2 size. */
  lemma TreeSizesExit(size: nat, k: nat)
    requires size > 0
    requires !(Pow2(k) < size && Shift(size, k) > 0)
    requires k > 0 ==> Pow2(k - 1) < size
    ensures k == CeilLog2(size) && Height(size) == k + 1
  {
    if Shift(size, k) == 0 {
      ShiftZero(size, k);
    }
    CeilLog2Unique(size, k);
  }

  /** Entry k of `tree_sizes(n)` is n >> k, and there are 1 + ceil(log2 n) entries. */
  lemma LevelSizesShape(n: nat)
    ensures |LevelSizes(n)| == (if n == 0 then 0 else 1 + CeilLog2(n))
    ensures forall k :: 0 <= k < |LevelSizes(n)| ==> LevelSizes(n)[k] == Shift(n, k)
    ensures n > 0 ==> LevelSizes(n)[0] == n
  {
  }

  lemma LevelSizesHalve(n: nat)
    ensures Halving(LevelSizes(n))
  {
    forall l | 0 < l < |LevelSizes(n)|
      ensures LevelSizes(n)[l] == LevelSizes(n)[l - 1] / 2
    {
    }
  }

  /** The top level holds a single complete node exactly when n is a power of two, else none. */
  lemma TopLevelSize(n: nat)
    requires n > 0
    ensures var sizes := LevelSizes(n);
      sizes[|sizes| - 1] <= 1 && (sizes[|sizes| - 1] == 1 <==> IsPowerOfTwo(n))
  {
    var t := CeilLog2(n);
    CeilLog2Bounds(n);
    assert LevelSizes(n)[|LevelSizes(n)| - 1] == Shift(n, t);
    ShiftBelow(1, n, t);
    if n == Pow2(t) {
      ShiftBelow(0, n, t);
      assert IsPowerOfTwo(n);
    } else {
      ShiftZero(n, t);
      if IsPowerOfTwo(n) {
        var k: nat :| Pow2(k) == n;
        if k > 0 {
          assert Pow2(k - 1) < n;
        }
        CeilLog2Unique(n, k);
      }
    }
  }

  /** A tree over more leaves never has fewer levels. */
  lemma HeightMonotone(m: nat, n: nat)
    requires m <= n
    ensures |LevelSizes(m)| <= |LevelSizes(n)|
  {
    if m > 0 {
      CeilLog2Monotone(m, n);
    }
  }

  // ---------------------------------------------------------------------
  // Inclusion-proof positions
  // ---------------------------------------------------------------------

  /**
    The inner loop of `proof_step` as written: starting from the missing right
    sibling (level, index), walk down its left edge and keep the first
    complete node found, then stop (`break`).
  */
  function FirstBelow(level: nat, index: nat, sizes: seq<nat>): set<Pos>
    requires level < |sizes|
    decreases level
  {
    if level == 0 then {}
    else if 2 * index < sizes[level - 1] then {(level - 1, 2 * index)}
    else FirstBelow(level - 1, 2 * index, sizes)
  }

  /**
    The same walk, but after keeping a complete node it steps past it to the
    node on its right instead of stopping. This collects every maximal complete
    node under the partial right sibling.
  */
  function SpanBelow(level: nat, index: nat, sizes: seq<nat>): set<Pos>
    requires level < |sizes|
    decreases level
  {
    if level == 0 then {}
    else if 2 * index < sizes[level - 1] then {(level - 1, 2 * index)} + SpanBelow(level - 1, 2 * index + 1, sizes)
    else SpanBelow(level - 1, 2 * index, sizes)
  }

  /** What one call of `proof_step` adds at `level` for the path node `index` (as written). */
  function SiblingsAtAsWritten(level: nat, index: nat, sizes: seq<nat>): set<Pos>
    requires level < |sizes|
  {
    if index % 2 == 0 then
      if index + 1 < sizes[level] then {(level, index + 1)} else FirstBelow(level, index + 1, sizes)
    else {(level, index - 1)}
  }

  /** What one call of the corrected `proof_step` adds at `level`. */
  function SiblingsAt(level: nat, index: nat, sizes: seq<nat>): set<Pos>
    requires level < |sizes|
  {
    if index % 2 == 0 then
      if index + 1 < sizes[level] then {(level, index + 1)} else SpanBelow(level, index + 1, sizes)
    else {(level, index - 1)}
  }

  /** Everything `proof_step` (as written) inserts from `level` up to the top level. */
  function PathProofAsWritten(level: nat, index: nat, sizes: seq<nat>): set<Pos>
    requires level < |sizes|
    decreases |sizes| - level
  {
    SiblingsAtAsWritten(level, index, sizes)
      + (if level < |sizes| - 1 then PathProofAsWritten(level + 1, index / 2, sizes) else {})
  }

  /** Everything the corrected `proof_step` inserts from `level` up to the top level. */
  function PathProof(level: nat, index: nat, sizes: seq<nat>): set<Pos>
    requires level < |sizes|
    decreases |sizes| - level
  {
    SiblingsAt(level, index, sizes)
      + (if level < |sizes| - 1 then PathProof(level + 1, index / 2, sizes) else {})
  }

  /** `proof_positions(index, size)` as written. */
  function ProofPositionSetAsWritten(index: nat, size: nat): set<Pos>
  {
    if size == 0 then {} else PathProofAsWritten(0, index, LevelSizes(size))
  }

  /** `proof_positions(index, size)` with the inner loop corrected. */
  function ProofPositionSet(index: nat, size: nat): set<Pos>
  {
    if size == 0 then {} else PathProof(0, index, LevelSizes(size))
  }

  /** `proof_step` as written: the inner `while` stops at the first complete node. */
  method ProofStepAsWritten(level: nat, index: nat, size: nat, sizes: seq<nat>, proof: set<Pos>)
    returns (result: set<Pos>)
    requires level < |sizes| && size == sizes[level] && Halving(sizes)
    ensures result == proof + PathProofAsWritten(level, index, sizes)
    decreases |sizes| - level
  {
    result := proof;
    if index % 2 == 0 {
      if index + 1 < size {
        result := result + {(level, index + 1)};
      } else {
        var newLevel: nat := level;
        var newIndex: nat := index + 1;
        while newLevel > 0
          invariant newLevel <= level
          invariant result == proof
          invariant FirstBelow(newLevel, newIndex, sizes) == FirstBelow(level, index + 1, sizes)
        {
          newLevel := newLevel - 1;
          newIndex := newIndex * 2;
          if newIndex < sizes[newLevel] {
            result := result + {(newLevel, newIndex)};
            break;
          }
        }
      }
    } else {
      result := result + {(level, index - 1)};
    }
    assert result == proof + SiblingsAtAsWritten(level, index, sizes);
    if level < |sizes| - 1 {
      result := ProofStepAsWritten(level + 1, index / 2, size / 2, sizes, result);
    }
  }

  /** `proof_step` with the `break` replaced by a step to the next node on the right. */
  method ProofStep(level: nat, index: nat, size: nat, sizes: seq<nat>, proof: set<Pos>)
    returns (result: set<Pos>)
    requires level < |sizes| && size == sizes[level] && Halving(sizes)
    ensures result == proof + PathProof(level, index, sizes)
    decreases |sizes| - level
  {
    result := proof;
    if index % 2 == 0 {
      if index + 1 < size {
        result := result + {(level, index + 1)};
      } else {
        var newLevel: nat := level;
        var newIndex: nat := index + 1;
        while newLevel > 0
          invariant newLevel <= level
          invariant result + SpanBelow(newLevel, newIndex, sizes) == proof + SpanBelow(level, index + 1, sizes)
        {
          newLevel := newLevel - 1;
          newIndex := newIndex * 2;
          if newIndex < sizes[newLevel] {
            result := result + {(newLevel, newIndex)};
            newIndex := newIndex + 1;
          }
        }
      }
    } else {
      result := result + {(level, index - 1)};
    }
    assert result == proof + SiblingsAt(level, index, sizes);
    if level < |sizes| - 1 {
      result := ProofStep(level + 1, index / 2, size / 2, sizes, result);
    }
  }

  /** `proof_positions` as written. */
  method ProofPositionsAsWritten(index: nat, size: nat) returns (proof: set<Pos>)
    ensures proof == ProofPositionSetAsWritten(index, size)
  {
    var sizes := TreeSizes(size);
    proof := {};
    if sizes == [] {
      return;
    }
    LevelSizesHalve(size);
    proof := ProofStepAsWritten(0, index, size, sizes, proof);
  }

  /** `proof_positions`, corrected: the set the rest of the model uses. */
  method ProofPositions(index: nat, size: nat) returns (proof: set<Pos>)
    ensures proof == ProofPositionSet(index, size)
  {
    var sizes := TreeSizes(size);
    proof := {};
    if sizes == [] {
      return;
    }
    LevelSizesHalve(size);
    proof := ProofStep(0, index, size, sizes, proof);
  }

  /** Every position an inclusion proof asks for lies below the top level. */
  lemma SpanBelowComplete(level: nat, index: nat, sizes: seq<nat>)
    requires level < |sizes|
    ensures forall p | p in SpanBelow(level, index, sizes) :: p.0 < level && p.1 < sizes[p.0]
    ensures FirstBelow(level, index, sizes) <= SpanBelow(level, index, sizes)
    decreases level
  {
    if level > 0 {
      if 2 * index < sizes[level - 1] {
        SpanBelowComplete(level - 1, 2 * index + 1, sizes);
      } else {
        SpanBelowComplete(level - 1, 2 * index, sizes);
      }
    }
  }

  lemma {:induction false} PathProofComplete(level: nat, index: nat, sizes: seq<nat>)
    requires level < |sizes| && Halving(sizes) && index <= sizes[level]
    ensures forall p | p in PathProof(level, index, sizes) :: p.0 < |sizes| && p.1 < sizes[p.0]
    ensures PathProofAsWritten(level, index, sizes) <= PathProof(level, index, sizes)
    decreases |sizes| - level
  {
    SpanBelowComplete(level, index + 1, sizes);
    if level < |sizes| - 1 {
      PathProofComplete(level + 1, index / 2, sizes);
    }
  }

  /**
    For a record inside the tree (or just past its end) the proof only names
    complete nodes, which an append-only store has already written.
  */
  lemma ProofPositionsComplete(index: nat, size: nat)
    requires index <= size
    ensures forall p | p in ProofPositionSet(index, size) ::
      p.0 < |LevelSizes(size)| && p.1 < LevelSizes(size)[p.0]
  {
    if size > 0 {
      LevelSizesHalve(size);
      PathProofComplete(0, index, LevelSizes(size));
    }
  }

  /**
    For the position just past the end of the tree, `proof_positions` as
    written and corrected ask for the same nodes: the only right siblings the
    walk meets lie past the end, and nothing under them is complete.
  */
  lemma PastEndPositionsAgree(size: nat)
    ensures ProofPositionSetAsWritten(size, size) == ProofPositionSet(size, size)
  {
    if size > 0 {
      LevelSizesHalve(size);
      PastEndPathAgrees(0, size, LevelSizes(size));
    }
  }

  lemma {:induction false} PastEndPathAgrees(level: nat, index: nat, sizes: seq<nat>)
    requires level < |sizes| && Halving(sizes) && index == sizes[level]
    ensures PathProofAsWritten(level, index, sizes) == PathProof(level, index, sizes)
    decreases |sizes| - level
  {
    BeyondEndEmpty(level, index + 1, sizes);
    if level < |sizes| - 1 {
      PastEndPathAgrees(level + 1, index / 2, sizes);
    }
  }

  /** Under a node past the end of its level, no node of a lower level is complete. */
  lemma {:induction false} BeyondEndEmpty(level: nat, index: nat, sizes: seq<nat>)
    requires level < |sizes| && Halving(sizes) && index > sizes[level]
    ensures FirstBelow(level, index, sizes) == {} && SpanBelow(level, index, sizes) == {}
    decreases level
  {
    if level > 0 {
      assert sizes[level] == sizes[level - 1] / 2;
      BeyondEndEmpty(level - 1, 2 * index, sizes);
    }
  }

  /** The corrected positions include every position the code as written asks for. */
  lemma AsWrittenWithinCorrected(index: nat, size: nat)
    ensures ProofPositionSetAsWritten(index, size) <= ProofPositionSet(index, size)
  {
    if size > 0 {
      var sizes := LevelSizes(size);
      LevelSizesHalve(size);
      AsWrittenWithinAt(0, index, sizes);
    }
  }

  lemma {:induction false} AsWrittenWithinAt(level: nat, index: nat, sizes: seq<nat>)
    requires level < |sizes|
    ensures PathProofAsWritten(level, index, sizes) <= PathProof(level, index, sizes)
    decreases |sizes| - level
  {
    SpanBelowComplete(level, index + 1, sizes);
    if level < |sizes| - 1 {
      AsWrittenWithinAt(level + 1, index / 2, sizes);
    }
  }

  /** The lowest level below the top with an odd node count, and its last complete node. */
  function LowestPeak(sizes: seq<nat>, from: nat): (r: set<Pos>)
    ensures |r| <= 1
    ensures forall p | p in r :: from <= p.0 < |sizes| - 1 && sizes[p.0] % 2 == 1 && p.1 == sizes[p.0] - 1
    ensures forall p | p in r :: forall l :: from <= l < p.0 ==> sizes[l] % 2 == 0
    ensures r == {} <==> forall l :: from <= l < |sizes| - 1 ==> sizes[l] % 2 == 0
    decreases |sizes| - from
  {
    if from + 1 >= |sizes| then {}
    else if sizes[from] % 2 == 1 then {(from, sizes[from] - 1)}
    else LowestPeak(sizes, from + 1)
  }

  /** `prefix_proof_positions(size1, size2)` for 0 < size1, built on the corrected `proof_positions`. */
  function PrefixPositionSet(size1: nat, size2: nat): set<Pos>
    requires 0 < size1
  {
    ProofPositionSet(size1, size2) + ProofPositionSet(size1 - 1, size2) + LowestPeak(LevelSizes(size2), 0)
  }

  /** `prefix_proof_positions(size1, size2)` as written, built on `proof_positions` as written. */
  function PrefixPositionSetAsWritten(size1: nat, size2: nat): set<Pos>
    requires 0 < size1
  {
    ProofPositionSetAsWritten(size1, size2) + ProofPositionSetAsWritten(size1 - 1, size2) + LowestPeak(LevelSizes(size2), 0)
  }

  /**
    The loop closing `prefix_proof_positions`: the last node of the first
    level below the top with an odd count is added, then the loop breaks.
  */
  method AddLowestPeak(proof: set<Pos>, sizes2: seq<nat>) returns (result: set<Pos>)
    ensures result == proof + LowestPeak(sizes2, 0)
  {
    result := proof;
    var m := |sizes2| - 1;
    var ix := 0;
    while ix < |sizes2|
      invariant 0 <= ix <= |sizes2|
      invariant result == proof
      invariant LowestPeak(sizes2, ix) == LowestPeak(sizes2, 0)
    {
      if ix < m && sizes2[ix] % 2 == 1 {
        result := result + {(ix, sizes2[ix] - 1)};
        break;
      }
      ix := ix + 1;
    }
  }

  /**
    `prefix_proof_positions` as written: the two `assert!`s become the
    `AssertionPanic` failure, and both inclusion parts keep the `break` of
    `proof_step`.
  */
  method PrefixProofPositionsAsWritten(size1: nat, size2: nat) returns (r: Result<set<Pos>, LogError>)
    ensures 0 < size1 < size2 ==> r == Success(PrefixPositionSetAsWritten(size1, size2))
    ensures !(0 < size1 < size2) ==> r == Failure(AssertionPanic)
  {
    if !(size1 > 0) || !(size1 < size2) {
      return Failure(AssertionPanic);
    }
    var proof := ProofPositionsAsWritten(size1, size2);
    var other := ProofPositionsAsWritten(size1 - 1, size2);
    var sizes2 := TreeSizes(size2);
    proof := AddLowestPeak(proof + other, sizes2);
    return Success(proof);
  }

  /**
    `prefix_proof_positions` built on the corrected `proof_positions`, with
    the two `assert!`s as the `AssertionPanic` failure.
  */
  method PrefixProofPositions(size1: nat, size2: nat) returns (r: Result<set<Pos>, LogError>)
    ensures 0 < size1 < size2 ==> r == Success(PrefixPositionSet(size1, size2))
    ensures !(0 < size1 < size2) ==> r == Failure(AssertionPanic)
  {
    if !(size1 > 0) || !(size1 < size2) {
      return Failure(AssertionPanic);
    }
    var proof := ProofPositions(size1, size2);
    var other := ProofPositions(size1 - 1, size2);
    var sizes2 := TreeSizes(size2);
    proof := AddLowestPeak(proof + other, sizes2);
    return Success(proof);
  }

  // ---------------------------------------------------------------------
  // The crate's examples
  // ---------------------------------------------------------------------

  lemma SizesExamples()
    ensures LevelSizes(0) == []
    ensures LevelSizes(7) == [7, 3, 1, 0]
    ensures LevelSizes(8) == [8, 4, 2, 1]
    ensures LevelSizes(13) == [13, 6, 3, 1, 0]
    ensures LevelSizes(16) == [16, 8, 4, 2, 1]
  {
    Sizes7();
    Sizes8();
    Sizes13();
    Sizes16();
  }

  lemma Sizes7()
    ensures LevelSizes(7) == [7, 3, 1, 0]
  {
    assert CeilLog2(7) == 3;
  }

  lemma Sizes8()
    ensures LevelSizes(8) == [8, 4, 2, 1]
  {
    assert CeilLog2(8) == 3;
  }

  lemma Sizes13()
    ensures LevelSizes(13) == [13, 6, 3, 1, 0]
  {
    assert CeilLog2(13) == 4;
  }

  lemma Sizes5()
    ensures CeilLog2(5) == 3
    ensures LevelSizes(5) == [5, 2, 1, 0]
  {
    assert CeilLog2(5) == 3;
  }

  lemma Sizes15()
    ensures CeilLog2(15) == 4
    ensures LevelSizes(15) == [15, 7, 3, 1, 0]
  {
    assert CeilLog2(15) == 4;
  }

  lemma Sizes16()
    ensures LevelSizes(16) == [16, 8, 4, 2, 1]
  {
    assert CeilLog2(16) == 4;
    assert Shift(16, 4) == 1;
  }

  /** Record 9 of 13 needs leaf 8, the pair (10, 11), leaf 12 and the first eight leaves. */
  lemma ProofPositionsExample13()
    ensures ProofPositionSet(9, 13) == {(0, 8), (1, 5), (0, 12), (3, 0)}
    ensures ProofPositionSetAsWritten(9, 13) == ProofPositionSet(9, 13)
  {
    Sizes13();
  }

  lemma ProofPositionsExample12()
    ensures ProofPositionSet(12, 13) == {(3, 0), (2, 2)}
    ensures ProofPositionSetAsWritten(12, 13) == ProofPositionSet(12, 13)
    ensures ProofPositionSet(0, 0) == {}
    ensures ProofPositionSetAsWritten(0, 0) == {}
  {
    Sizes13();
  }

  lemma ProofPositionsExample16()
    ensures ProofPositionSet(9, 16) == {(3, 0), (2, 3), (1, 5), (0, 8)}
    ensures ProofPositionSetAsWritten(9, 16) == ProofPositionSet(9, 16)
  {
    Sizes16();
  }

  lemma ProofPositionsExample8()
    ensures ProofPositionSet(7, 8) == {(0, 6), (1, 2), (2, 0)}
    ensures ProofPositionSetAsWritten(7, 8) == ProofPositionSet(7, 8)
  {
    Sizes8();
  }

  /** Record 0 of 7: the code as written leaves out leaf 6, the corrected walk keeps it. */
  lemma ProofPositionsExample7()
    ensures ProofPositionSetAsWritten(0, 7) == {(0, 1), (1, 1), (1, 2)}
    ensures ProofPositionSet(0, 7) == {(0, 1), (1, 1), (1, 2), (0, 6)}
  {
    Sizes7();
  }

  /**
    Records 6 and 7 of 13 share their upper path: the pair (4, 5), the first
    four leaves and (8..11); the corrected walk also names leaf 12, which the
    `break` drops.
  */
  lemma ProofPositionsExample6And7Of13()
    ensures ProofPositionSetAsWritten(7, 13) == {(0, 6), (1, 2), (2, 0), (2, 2)}
    ensures ProofPositionSetAsWritten(6, 13) == {(0, 7), (1, 2), (2, 0), (2, 2)}
    ensures ProofPositionSet(7, 13) == {(0, 6), (1, 2), (2, 0), (2, 2), (0, 12)}
    ensures ProofPositionSet(6, 13) == {(0, 7), (1, 2), (2, 0), (2, 2), (0, 12)}
  {
    Sizes13();
  }

  /** In a tree of 16 there is no partial node, so the `break` never matters. */
  lemma ProofPositionsExample6And7Of16()
    ensures ProofPositionSetAsWritten(7, 16) == ProofPositionSet(7, 16) == {(0, 6), (1, 2), (2, 0), (3, 1)}
    ensures ProofPositionSetAsWritten(6, 16) == ProofPositionSet(6, 16) == {(0, 7), (1, 2), (2, 0), (3, 1)}
  {
    Sizes16();
  }

  /** Thirteen records leave leaf 12 as the lowest peak; sixteen leave none below the top. */
  lemma LowestPeakExamples()
    ensures LowestPeak(LevelSizes(13), 0) == {(0, 12)}
    ensures LowestPeak(LevelSizes(16), 0) == {}
  {
    LowestPeak13();
    LowestPeak16();
  }

  lemma LowestPeak13()
    ensures LowestPeak(LevelSizes(13), 0) == {(0, 12)}
  {
    Sizes13();
  }

  lemma LowestPeak16()
    ensures LowestPeak(LevelSizes(16), 0) == {}
  {
    Sizes16();
  }

  /**
    A consistency proof from 7 to 13 records: six positions, as written and
    corrected alike, because the lowest peak restores leaf 12.
  */
  lemma PrefixPositionsExample()
    ensures PrefixPositionSetAsWritten(7, 13) == PrefixPositionSet(7, 13)
    ensures PrefixPositionSet(7, 13) == {(0, 6), (0, 7), (1, 2), (2, 0), (2, 2), (0, 12)}
  {
    PrefixPositionsExampleAsWritten();
    ProofPositionsExample6And7Of13();
    LowestPeak13();
    UnionOf7And13();
  }

  /** The as-written positions from 7 to 13: the lowest peak supplies the leaf 12 both proofs miss. */
  lemma PrefixPositionsExampleAsWritten()
    ensures PrefixPositionSetAsWritten(7, 13) == {(0, 6), (0, 7), (1, 2), (2, 0), (2, 2), (0, 12)}
  {
    ProofPositionsExample6And7Of13();
    LowestPeak13();
    UnionOf7And13();
  }

  /** The set arithmetic of the two lemmas above, kept apart from the unfolded definitions. */
  lemma UnionOf7And13()
    ensures {(0, 6), (1, 2), (2, 0), (2, 2)} + {(0, 7), (1, 2), (2, 0), (2, 2)} + {(0, 12)}
         == {(0, 6), (1, 2), (2, 0), (2, 2), (0, 12)} + {(0, 7), (1, 2), (2, 0), (2, 2), (0, 12)} + {(0, 12)}
         == {(0, 6), (0, 7), (1, 2), (2, 0), (2, 2), (0, 12)}
  {
  }

  /** From 7 to 16 records no level below the top has an odd count, so five positions suffice. */
  lemma PrefixPositionsExample16()
    ensures PrefixPositionSetAsWritten(7, 16) == PrefixPositionSet(7, 16)
    ensures PrefixPositionSet(7, 16) == {(0, 6), (0, 7), (1, 2), (2, 0), (3, 1)}
  {
    ProofPositionsExample6And7Of16();
    LowestPeak16();
    UnionOf7And16();
  }

  lemma UnionOf7And16()
    ensures {(0, 6), (1, 2), (2, 0), (3, 1)} + {(0, 7), (1, 2), (2, 0), (3, 1)} + {}
         == {(0, 6), (0, 7), (1, 2), (2, 0), (3, 1)}
  {
  }

  /**
    Records 5 and 4 of 15: under the partial node (3, 1) the `break` keeps
    only (2, 2) and drops the pair (12, 13) and leaf 14.
  */
  lemma ProofPositionsExample4And5Of15()
    ensures ProofPositionSetAsWritten(5, 15) == {(0, 4), (1, 3), (2, 0), (2, 2)}
    ensures ProofPositionSetAsWritten(4, 15) == {(0, 5), (1, 3), (2, 0), (2, 2)}
    ensures ProofPositionSet(5, 15) == {(0, 4), (1, 3), (2, 0), (2, 2), (1, 6), (0, 14)}
    ensures ProofPositionSet(4, 15) == {(0, 5), (1, 3), (2, 0), (2, 2), (1, 6), (0, 14)}
  {
    Sizes15();
  }

  /**
    A consistency proof from 5 to 15 records: the lowest peak restores leaf
    14, but the pair (12, 13) is missing as written.
  */
  lemma PrefixPositionsExample15()
    ensures PrefixPositionSetAsWritten(5, 15) == {(0, 4), (0, 5), (1, 3), (2, 0), (2, 2), (0, 14)}
    ensures PrefixPositionSet(5, 15) == PrefixPositionSetAsWritten(5, 15) + {(1, 6)}
  {
    ProofPositionsExample4And5Of15();
    LowestPeak15();
    UnionOf5And15();
  }

  lemma LowestPeak15()
    ensures LowestPeak(LevelSizes(15), 0) == {(0, 14)}
  {
    Sizes15();
  }

  lemma UnionOf5And15()
    ensures {(0, 4), (1, 3), (2, 0), (2, 2)} + {(0, 5), (1, 3), (2, 0), (2, 2)} + {(0, 14)}
         == {(0, 4), (0, 5), (1, 3), (2, 0), (2, 2), (0, 14)}
    ensures {(0, 4), (1, 3), (2, 0), (2, 2), (1, 6), (0, 14)} + {(0, 5), (1, 3), (2, 0), (2, 2), (1, 6), (0, 14)} + {(0, 14)}
         == {(0, 4), (0, 5), (1, 3), (2, 0), (2, 2), (0, 14)} + {(1, 6)}
  {
  }
}
