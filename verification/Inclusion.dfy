/** Merkle inclusion proofs: the bottom-up check of a sibling path against one peak. */
module Inclusion {
  import opened Words
  import opened Digests
  import opened Merkle

  const PROOF_VERSION := 1

  datatype Side = Left | Right

  datatype ProofStep = ProofStep(height: U8, side: Side, root: Hex<Digest>)

  datatype InclusionProof = InclusionProof(
    version: nat, revision: U64, peakIndex: U8, leaf: Hex<Digest>, siblings: seq<ProofStep>)

  /** First revision of the block of 2^h leaves that holds offset `local` of a peak. */
  function BlockStart(peakStart: U64, local: nat, h: nat): (start: nat)
    requires peakStart + local < TWO64
    ensures peakStart <= start <= peakStart + local
  {
    ShiftDownUp(local, h);
    peakStart + Shl(Shr(local, h), h)
  }

  predicate IsRight(local: nat, h: nat) {
    Shr(local, h) % 2 == 1
  }

  /** A block is the left or the right half of its parent. */
  lemma {:induction false} BlockParent(peakStart: U64, local: nat, h: nat)
    requires peakStart + local < TWO64
    ensures BlockStart(peakStart, local, h)
         == BlockStart(peakStart, local, h + 1) + (if IsRight(local, h) then Pow2(h) else 0)
  {
    ShiftDownUp(local, h);
    ShiftDownUp(local, h + 1);
  }

  /** One round of the verification loop; None when the step is not the canonical one. */
  function ClimbStep(stream: Stream, peakStart: U64, local: nat, h: nat, step: ProofStep,
                     current: Digest): (r: Option<Digest>)
    requires peakStart + local < TWO64 && h < MAX_PROOF_DEPTH
  {
    var blockStart := BlockStart(peakStart, local, h);
    var expectedSide := if IsRight(local, h) then Left else Right;
    if step.height != h || step.side != expectedSide || step.root.Malformed? then None
    else if IsRight(local, h) then
      BlockParent(peakStart, local, h);
      Some(Node(stream, h + 1, blockStart - Pow2(h), step.root.digest, current))
    else Some(Node(stream, h + 1, blockStart, current, step.root.digest))
  }

  /** The digest reached from `leaf` after the first k siblings. */
  function Climb(stream: Stream, peakStart: U64, local: nat, leaf: Digest, siblings: seq<ProofStep>,
                 k: nat): (r: Option<Digest>)
    requires peakStart + local < TWO64 && k <= |siblings| <= MAX_PROOF_DEPTH
    decreases k
  {
    if k == 0 then Some(leaf)
    else
      var below := Climb(stream, peakStart, local, leaf, siblings, k - 1);
      if below.None? then None else ClimbStep(stream, peakStart, local, k - 1, siblings[k - 1], below.value)
  }

  lemma {:induction false} ClimbStuck(stream: Stream, peakStart: U64, local: nat, leaf: Digest,
                                      siblings: seq<ProofStep>, k: nat, m: nat)
    requires peakStart + local < TWO64 && k <= m <= |siblings| <= MAX_PROOF_DEPTH
    requires Climb(stream, peakStart, local, leaf, siblings, k).None?
    ensures Climb(stream, peakStart, local, leaf, siblings, m).None?
    decreases m
  {
    if k < m {
      ClimbStuck(stream, peakStart, local, leaf, siblings, k, m - 1);
    }
  }

  /** The proof names a peak that covers the revision and has one sibling per level. */
  predicate FitsPeak(peaks: seq<Peak>, revision: U64, proof: InclusionProof) {
    && proof.version == PROOF_VERSION && proof.revision == revision
    && proof.peakIndex < |peaks|
    && var peak := peaks[proof.peakIndex];
       && peak.height <= MAX_PROOF_DEPTH
       && peak.start <= revision && revision - peak.start < Pow2(peak.height)
       && |proof.siblings| == peak.height
  }

  predicate Included(stream: Stream, peaks: seq<Peak>, revision: U64, content: Digest, proof: InclusionProof) {
    && FitsPeak(peaks, revision, proof)
    && var peak := peaks[proof.peakIndex];
       var leaf := Leaf(stream, revision, content);
       && proof.leaf == Hex(leaf)
       && peak.root.Hex?
       && Climb(stream, peak.start, revision - peak.start, leaf, proof.siblings, peak.height) == Some(peak.root.digest)
  }

  method VerifyInclusion(stream: Stream, peaks: seq<Peak>, revision: U64, content: Digest, proof: InclusionProof)
    returns (ok: bool)
    ensures ok == Included(stream, peaks, revision, content, proof)
  {
    if !FitsPeak(peaks, revision, proof) {
      return false;
    }
    var peak := peaks[proof.peakIndex];
    var local := revision - peak.start;
    var leaf := Leaf(stream, revision, content);
    if proof.leaf != Hex(leaf) {
      return false;
    }
    var current := leaf;
    for index := 0 to |proof.siblings|
      invariant Climb(stream, peak.start, local, leaf, proof.siblings, index) == Some(current)
    {
      var next := ClimbStep(stream, peak.start, local, index, proof.siblings[index], current);
      if next.None? {
        ClimbStuck(stream, peak.start, local, leaf, proof.siblings, index + 1, |proof.siblings|);
        return false;
      }
      current := next.value;
    }
    return peak.root == Hex(current);
  }

  // ---- Soundness ----

  /** Every block on the path lies inside its peak. */
  lemma {:induction false} BlockInPeak(peakStart: U64, local: nat, height: nat, h: nat)
    requires peakStart + local < TWO64 && local < Pow2(height) && h <= height
    ensures BlockStart(peakStart, local, h) + Pow2(h) <= peakStart + Pow2(height)
    decreases height - h
  {
    if h == height {
      ShrBelow(local, height);
      ShlZero(height);
    } else {
      BlockInPeak(peakStart, local, height, h + 1);
      BlockParent(peakStart, local, h);
      assert Pow2(h + 1) == 2 * Pow2(h);
    }
  }

  /** Reaching a tree root from a leaf is possible only from the leaf the tree holds. */
  lemma {:induction false} ClimbSound(stream: Stream, leaves: seq<Digest>, peakStart: U64, height: nat, local: nat,
                                      leaf: Digest, siblings: seq<ProofStep>, k: nat)
    requires |leaves| < TWO64 && 1 <= peakStart && peakStart - 1 + Pow2(height) <= |leaves|
    requires local < Pow2(height) && k <= height <= MAX_PROOF_DEPTH && |siblings| == height
    requires BlockStart(peakStart, local, k) - 1 + Pow2(k) <= |leaves|
    requires Climb(stream, peakStart, local, leaf, siblings, k)
          == Some(Subtree(stream, leaves, k, BlockStart(peakStart, local, k)))
    ensures leaf == leaves[peakStart + local - 1]
    decreases k
  {
    if k == 0 {
    } else {
      BlockInPeak(peakStart, local, height, k - 1);
      BlockParent(peakStart, local, k - 1);
      ClimbSound(stream, leaves, peakStart, height, local, leaf, siblings, k - 1);
    }
  }

  /** The block of full height is the whole peak. */
  lemma {:induction false} TopBlock(peakStart: U64, local: nat, height: nat)
    requires peakStart + local < TWO64 && local < Pow2(height)
    ensures BlockStart(peakStart, local, height) == peakStart
  {
    ShrBelow(local, height);
    ShlZero(height);
  }

  /** An accepted proof forces the claimed content to be the leaf at that revision. */
  lemma {:induction false} InclusionSound(stream: Stream, leaves: seq<Digest>, revision: U64, content: Digest,
                                          proof: InclusionProof)
    requires |leaves| < TWO64
    requires Included(stream, PeaksOf(stream, leaves), revision, content, proof)
    ensures 1 <= revision <= |leaves|
    ensures leaves[revision - 1] == Leaf(stream, revision, content)
  {
    PeaksOfShape(stream, leaves);
    var peak := PeaksOf(stream, leaves)[proof.peakIndex];
    assert TreePeak(stream, leaves, peak);
    var local := revision - peak.start;
    TopBlock(peak.start, local, peak.height);
    ClimbSound(stream, leaves, peak.start, peak.height, local, Leaf(stream, revision, content), proof.siblings,
               peak.height);
  }

  // ---- Completeness ----

  /** The sibling of the block of height h on the path to offset `local`. */
  function HonestStep(stream: Stream, leaves: seq<Digest>, peakStart: U64, height: nat, local: nat,
                      h: nat): (step: ProofStep)
    requires |leaves| < TWO64 && 1 <= peakStart && peakStart - 1 + Pow2(height) <= |leaves|
    requires local < Pow2(height) && h < height <= MAX_PROOF_DEPTH
  {
    BlockInPeak(peakStart, local, height, h + 1);
    BlockParent(peakStart, local, h);
    var parent := BlockStart(peakStart, local, h + 1);
    if IsRight(local, h) then ProofStep(h, Left, Hex(Subtree(stream, leaves, h, parent)))
    else ProofStep(h, Right, Hex(Subtree(stream, leaves, h, parent + Pow2(h))))
  }

  function HonestSiblings(stream: Stream, leaves: seq<Digest>, peakStart: U64, height: nat,
                          local: nat): (siblings: seq<ProofStep>)
    requires |leaves| < TWO64 && 1 <= peakStart && peakStart - 1 + Pow2(height) <= |leaves|
    requires local < Pow2(height) && height <= MAX_PROOF_DEPTH
    ensures |siblings| == height
  {
    seq(height, h requires 0 <= h < height => HonestStep(stream, leaves, peakStart, height, local, h))
  }

  lemma {:induction false} HonestStepClimbs(stream: Stream, leaves: seq<Digest>, peakStart: U64, height: nat,
                                            local: nat, h: nat)
    requires |leaves| < TWO64 && 1 <= peakStart && peakStart - 1 + Pow2(height) <= |leaves|
    requires local < Pow2(height) && h < height <= MAX_PROOF_DEPTH
    ensures BlockStart(peakStart, local, h) - 1 + Pow2(h) <= |leaves|
    ensures BlockStart(peakStart, local, h + 1) - 1 + Pow2(h + 1) <= |leaves|
    ensures ClimbStep(stream, peakStart, local, h, HonestStep(stream, leaves, peakStart, height, local, h),
                      Subtree(stream, leaves, h, BlockStart(peakStart, local, h)))
         == Some(Subtree(stream, leaves, h + 1, BlockStart(peakStart, local, h + 1)))
  {
    BlockInPeak(peakStart, local, height, h);
    BlockInPeak(peakStart, local, height, h + 1);
    BlockParent(peakStart, local, h);
    var parent := BlockStart(peakStart, local, h + 1);
    assert Subtree(stream, leaves, h + 1, parent)
        == Node(stream, h + 1, parent, Subtree(stream, leaves, h, parent),
                Subtree(stream, leaves, h, parent + Pow2(h)));
    if IsRight(local, h) {
      assert BlockStart(peakStart, local, h) == parent + Pow2(h);
    } else {
      assert BlockStart(peakStart, local, h) == parent;
    }
  }

  lemma {:induction false} ClimbComplete(stream: Stream, leaves: seq<Digest>, peakStart: U64, height: nat, local: nat,
                                         k: nat)
    requires |leaves| < TWO64 && 1 <= peakStart && peakStart - 1 + Pow2(height) <= |leaves|
    requires local < Pow2(height) && k <= height <= MAX_PROOF_DEPTH
    ensures BlockStart(peakStart, local, k) - 1 + Pow2(k) <= |leaves|
    ensures Climb(stream, peakStart, local, leaves[peakStart + local - 1],
                  HonestSiblings(stream, leaves, peakStart, height, local), k)
         == Some(Subtree(stream, leaves, k, BlockStart(peakStart, local, k)))
    decreases k
  {
    BlockInPeak(peakStart, local, height, k);
    if k == 0 {
    } else {
      ClimbComplete(stream, leaves, peakStart, height, local, k - 1);
      HonestStepClimbs(stream, leaves, peakStart, height, local, k - 1);
    }
  }

  /** The index of the peak that covers a revision. */
  function PeakFor(n: nat, revision: nat): (i: nat)
    requires 1 <= revision <= n < TWO64
    ensures i < |Layout(n)|
    ensures Layout(n)[i].start <= revision < Layout(n)[i].start + Pow2(Layout(n)[i].height)
    decreases n
  {
    var rest := n - Pow2(TrailingZeros(n));
    HeightBound(n, TrailingZeros(n));
    if revision > rest then |Layout(n)| - 1 else PeakFor(rest, revision)
  }

  function HonestProof(stream: Stream, leaves: seq<Digest>, revision: U64): (proof: InclusionProof)
    requires 1 <= revision <= |leaves| < TWO64
  {
    PeaksOfShape(stream, leaves);
    var i := PeakFor(|leaves|, revision);
    var peak := PeaksOf(stream, leaves)[i];
    LayoutTiles(|leaves|);
    InclusionProof(PROOF_VERSION, revision, i, Hex(leaves[revision - 1]),
                   HonestSiblings(stream, leaves, peak.start, peak.height, revision - peak.start))
  }

  lemma {:induction false} InclusionComplete(stream: Stream, leaves: seq<Digest>, revision: U64, content: Digest)
    requires 1 <= revision <= |leaves| < TWO64
    requires leaves[revision - 1] == Leaf(stream, revision, content)
    ensures Included(stream, PeaksOf(stream, leaves), revision, content, HonestProof(stream, leaves, revision))
  {
    PeaksOfShape(stream, leaves);
    LayoutTiles(|leaves|);
    var peak := PeaksOf(stream, leaves)[PeakFor(|leaves|, revision)];
    ClimbComplete(stream, leaves, peak.start, peak.height, revision - peak.start, peak.height);
    TopBlock(peak.start, revision - peak.start, peak.height);
  }

  // ---- One peak per revision ----

  lemma {:induction false} BlocksApart(layout: seq<Block>, n: nat, i: nat, j: nat)
    requires BinaryExpansion(layout, n) && i < j < |layout|
    ensures layout[i].start + Pow2(layout[i].height) <= layout[j].start
    decreases j
  {
    if i + 1 < j {
      BlocksApart(layout, n, i, j - 1);
    }
  }

  /** Only the covering peak can accept a proof for a revision. */
  lemma {:induction false} PeakIndexUnique(stream: Stream, leaves: seq<Digest>, revision: U64, content: Digest,
                                           proof: InclusionProof)
    requires 1 <= revision <= |leaves| < TWO64
    requires Included(stream, PeaksOf(stream, leaves), revision, content, proof)
    ensures proof.peakIndex == PeakFor(|leaves|, revision)
  {
    PeaksOfShape(stream, leaves);
    LayoutIsExpansion(|leaves|);
    var layout := Layout(|leaves|);
    var i := PeakFor(|leaves|, revision);
    var j := proof.peakIndex;
    assert BlocksOf(PeaksOf(stream, leaves))[j] == layout[j];
    if i < j {
      BlocksApart(layout, |leaves|, i, j);
    } else if j < i {
      BlocksApart(layout, |leaves|, j, i);
    }
  }
}
