/**
 The Merkle Mountain Range of a revision stream: the canonical list of peaks, the append that
 merges peaks like a binary counter, and the recursively defined tree both must agree with.
 */
module Merkle {
  import opened Words
  import opened Digests

  const MAX_PROOF_PEAKS := 64
  const MAX_PROOF_DEPTH := 63

  /** One peak of a head. `start` is one-based and the peak covers 2^height leaves. */
  datatype Peak = Peak(height: U8, start: U64, root: Hex<Digest>)

  datatype MerkleNode = MerkleNode(height: U8, start: U64, root: Digest)

  /** A peak's place in the layout, without its root. */
  datatype Block = Block(height: U8, start: U64)

  datatype Appended = Appended(peaks: seq<Peak>, created: seq<MerkleNode>)

  // ---- The recursive reference ----

  /** The root of the perfect tree over the 2^height leaves that begin at one-based revision `start`. */
  function Subtree(stream: Stream, leaves: seq<Digest>, height: U8, start: U64): Digest
    requires |leaves| < TWO64
    requires 1 <= start && start - 1 + Pow2(height) <= |leaves|
    decreases height
  {
    if height == 0 then leaves[start - 1]
    else
      Node(stream, height, start,
           Subtree(stream, leaves, height - 1, start),
           Subtree(stream, leaves, height - 1, start + Pow2(height - 1)))
  }

  /** The position of the lowest set bit. */
  function TrailingZeros(n: nat): (k: nat)
    requires n > 0
    ensures Pow2(k) <= n
  {
    if n % 2 == 1 then 0 else 1 + TrailingZeros(n / 2)
  }

  /** n is a multiple of 2^k. */
  predicate Aligned(n: nat, k: nat) {
    n == 0 || k <= TrailingZeros(n)
  }

  lemma {:induction false} HeightBound(n: nat, h: nat)
    requires Pow2(h) <= n < TWO64
    ensures h <= 63
  {
    if h >= 64 {
      Pow2Monotonic(64, h);
      Pow2At63();
    }
  }

  /** The binary expansion of n: one block for every set bit, highest first, tiling 1..n. */
  function Layout(n: nat): (layout: seq<Block>)
    requires n < TWO64
    decreases n
  {
    if n == 0 then []
    else
      var h := TrailingZeros(n);
      HeightBound(n, h);
      Layout(n - Pow2(h)) + [Block(h, n - Pow2(h) + 1)]
  }

  /** The peaks a stream with these leaves must have. */
  function PeaksOf(stream: Stream, leaves: seq<Digest>): seq<Peak>
    requires |leaves| < TWO64
  {
    LayoutTiles(|leaves|);
    var layout := Layout(|leaves|);
    seq(|layout|, i requires 0 <= i < |layout| =>
      Peak(layout[i].height, layout[i].start, Hex(Subtree(stream, leaves, layout[i].height, layout[i].start))))
  }

  /** The node of this height that the last leaf completes. */
  function CompletedNode(stream: Stream, leaves: seq<Digest>, height: nat): (node: MerkleNode)
    requires 0 < |leaves| < TWO64 && height <= TrailingZeros(|leaves|)
    ensures node.height == height && node.start - 1 + Pow2(height) == |leaves|
  {
    HeightBound(|leaves|, TrailingZeros(|leaves|));
    Pow2Monotonic(height, TrailingZeros(|leaves|));
    var start := |leaves| - Pow2(height) + 1;
    MerkleNode(height, start, Subtree(stream, leaves, height, start))
  }

  /** The nodes completed by the last leaf: one for every power of two that divides the leaf count. */
  function CompletedNodes(stream: Stream, leaves: seq<Digest>): seq<MerkleNode>
    requires 0 < |leaves| < TWO64
  {
    seq(TrailingZeros(|leaves|) + 1, h requires 0 <= h <= TrailingZeros(|leaves|) => CompletedNode(stream, leaves, h))
  }

  // ---- Arithmetic of the lowest set bit ----

  lemma {:induction false} LowestBitOfSum(m: nat, h: nat)
    requires Aligned(m, h + 1)
    ensures TrailingZeros(m + Pow2(h)) == h
  {
    if h == 0 {
    } else {
      assert Pow2(h) == 2 * Pow2(h - 1);
      assert (m + Pow2(h)) / 2 == m / 2 + Pow2(h - 1);
      LowestBitOfSum(m / 2, h - 1);
    }
  }

  lemma {:induction false} ClearLowestBit(n: nat)
    requires n > 0
    ensures Aligned(n - Pow2(TrailingZeros(n)), TrailingZeros(n) + 1)
  {
    if n % 2 == 0 {
      var h := TrailingZeros(n / 2);
      assert Pow2(h + 1) == 2 * Pow2(h);
      assert (n - Pow2(h + 1)) / 2 == n / 2 - Pow2(h);
      ClearLowestBit(n / 2);
    }
  }

  lemma {:induction false} AlignedShift(m: nat, h: nat)
    ensures Aligned(m, h) <==> Aligned(m + Pow2(h), h)
  {
    if h > 0 && m % 2 == 0 {
      assert Pow2(h) == 2 * Pow2(h - 1);
      assert (m + Pow2(h)) / 2 == m / 2 + Pow2(h - 1);
      AlignedShift(m / 2, h - 1);
    }
  }

  // ---- The layout ----

  lemma {:induction false} LayoutShort(n: nat)
    requires n < TWO64
    ensures |Layout(n)| <= MAX_PROOF_PEAKS
    ensures n > 0 ==> Layout(n) != [] && |Layout(n)| <= MAX_PROOF_PEAKS - TrailingZeros(n)
  {
    if n == 0 {
    } else {
      var h := TrailingZeros(n);
      HeightBound(n, h);
      ClearLowestBit(n);
      LayoutShort(n - Pow2(h));
    }
  }

  /** The blocks of a layout lie inside 1..n. */
  lemma {:induction false} LayoutTiles(n: nat)
    requires n < TWO64
    ensures forall i {:trigger Layout(n)[i]} :: 0 <= i < |Layout(n)| ==>
      1 <= Layout(n)[i].start && Layout(n)[i].height <= 63 &&
      Layout(n)[i].start - 1 + Pow2(Layout(n)[i].height) <= n
  {
    if n == 0 {
    } else {
      var h := TrailingZeros(n);
      HeightBound(n, h);
      LayoutTiles(n - Pow2(h));
    }
  }

  /**
   A list of blocks with strictly falling heights that tiles 1..n without gap. The layout is the
   only such list, so the canonical peak list is the binary expansion of the leaf count.
   */
  ghost predicate BinaryExpansion(layout: seq<Block>, n: nat) {
    && (layout == [] ==> n == 0)
    && (layout != [] ==>
          layout[0].start == 1 && layout[|layout| - 1].start - 1 + Pow2(layout[|layout| - 1].height) == n)
    && (forall i, j :: 0 <= i < j < |layout| && j == i + 1 ==>
         layout[j].height < layout[i].height && layout[j].start == layout[i].start + Pow2(layout[i].height))
  }

  lemma {:induction false} LayoutIsExpansion(n: nat)
    requires n < TWO64
    ensures BinaryExpansion(Layout(n), n)
  {
    if n == 0 {
    } else {
      var h := TrailingZeros(n);
      var m := n - Pow2(h);
      HeightBound(n, h);
      LayoutIsExpansion(m);
      ClearLowestBit(n);
      assert m > 0 ==> Layout(m)[|Layout(m)| - 1].height == TrailingZeros(m);
    }
  }

  /** Dropping the last block leaves the expansion of what came before it. */
  lemma {:induction false} ExpansionFront(layout: seq<Block>, n: nat)
    requires BinaryExpansion(layout, n) && layout != []
    ensures Pow2(layout[|layout| - 1].height) <= n
    ensures BinaryExpansion(layout[..|layout| - 1], n - Pow2(layout[|layout| - 1].height))
  {
    var front := layout[..|layout| - 1];
    forall i | 0 <= i < |front|
      ensures front[i] == layout[i]
    {
    }
    if |layout| > 1 {
      assert layout[|layout| - 1].start == layout[|layout| - 2].start + Pow2(layout[|layout| - 2].height);
    }
  }

  lemma {:induction false} ExpansionAligned(layout: seq<Block>, n: nat)
    requires BinaryExpansion(layout, n) && layout != []
    ensures n > 0 && TrailingZeros(n) == layout[|layout| - 1].height
  {
    var last := layout[|layout| - 1];
    var m := n - Pow2(last.height);
    if |layout| == 1 {
      LowestBitOfSum(0, last.height);
    } else {
      ExpansionFront(layout, n);
      ExpansionAligned(layout[..|layout| - 1], m);
      LowestBitOfSum(m, last.height);
    }
  }

  /** The layout ends with the block of the lowest set bit. */
  lemma {:induction false} LayoutStep(n: nat, h: nat)
    requires 0 < n < TWO64 && h == TrailingZeros(n)
    ensures h <= 63 && Layout(n) == Layout(n - Pow2(h)) + [Block(h, n - Pow2(h) + 1)]
  {
    HeightBound(n, h);
  }

  /** The last block of an expansion ends at n. */
  lemma {:induction false} ExpansionEnd(layout: seq<Block>, n: nat)
    requires n < TWO64 && BinaryExpansion(layout, n) && layout != []
    ensures var last := layout[|layout| - 1];
      0 < n && Pow2(last.height) <= n && TrailingZeros(n) == last.height && last.start == n - Pow2(last.height) + 1
  {
    ExpansionFront(layout, n);
    ExpansionAligned(layout, n);
  }

  lemma {:induction false} ExpansionUnique(layout: seq<Block>, n: nat)
    requires n < TWO64 && BinaryExpansion(layout, n)
    ensures layout == Layout(n)
    decreases |layout|
  {
    if layout == [] {
    } else {
      var front, last := layout[..|layout| - 1], layout[|layout| - 1];
      ExpansionEnd(layout, n);
      ExpansionFront(layout, n);
      ExpansionUnique(front, n - Pow2(last.height));
      LayoutStep(n, last.height);
      assert layout == front + [last];
    }
  }

  // ---- The source's operations ----

  /** Setting a bit below all set bits of m adds one block at the end. */
  lemma {:induction false} LayoutPush(m: nat, h: nat)
    requires Aligned(m, h + 1) && m + Pow2(h) < TWO64
    ensures h <= 63 && Aligned(m + Pow2(h), h)
    ensures Layout(m + Pow2(h)) == Layout(m) + [Block(h, m + 1)]
  {
    HeightBound(m + Pow2(h), h);
    LowestBitOfSum(m, h);
  }

  /** The layout of the bits above `height`, which end just before `start`. */
  ghost predicate Scanned(leafCount: U64, height: int, start: int, layout: seq<Block>) {
    && -1 <= height <= MAX_PROOF_DEPTH
    && 1 <= start && start - 1 + LowBits(leafCount, height + 1) == leafCount
    && Aligned(start - 1, height + 1)
    && layout == Layout(start - 1)
  }

  lemma {:induction false} ScanStart(leafCount: U64, height: int)
    requires height == MAX_PROOF_DEPTH
    ensures Scanned(leafCount, height, 1, [])
  {
    Pow2At63();
    ShrBelow(leafCount, height + 1);
  }

  lemma {:induction false} ScanStep(leafCount: U64, height: nat, start: int, layout: seq<Block>)
    requires Scanned(leafCount, height, start, layout)
    ensures Shr(leafCount, height) % 2 != 0 ==>
      start <= leafCount && Scanned(leafCount, height - 1, start + Pow2(height), layout + [Block(height, start)])
    ensures Shr(leafCount, height) % 2 == 0 ==> Scanned(leafCount, height - 1, start, layout)
  {
    if Shr(leafCount, height) % 2 != 0 {
      LayoutPush(start - 1, height);
    }
  }

  /** Walks the bits of the leaf count from 63 down to 0. */
  method ExpectedPeakLayout(leafCount: U64) returns (layout: seq<Block>)
    ensures layout == Layout(leafCount)
  {
    layout := [];
    var start := 1;
    var height := MAX_PROOF_DEPTH;
    ScanStart(leafCount, height);
    while height >= 0
      invariant Scanned(leafCount, height, start, layout)
    {
      ScanStep(leafCount, height, start, layout);
      if Shr(leafCount, height) % 2 != 0 {
        layout := layout + [Block(height, start)];
        start := start + Pow2(height);
      }
      height := height - 1;
    }
  }

  predicate AllHex(peaks: seq<Peak>) {
    forall i :: 0 <= i < |peaks| ==> peaks[i].root.Hex?
  }

  function BlocksOf(peaks: seq<Peak>): seq<Block> {
    seq(|peaks|, i requires 0 <= i < |peaks| => Block(peaks[i].height, peaks[i].start))
  }

  /** The digest over the peak list, or None for too many peaks or a malformed root. */
  function MerkleRoot(stream: Stream, leafCount: U64, peaks: seq<Peak>): (root: Option<Digest>) {
    if |peaks| > MAX_PROOF_PEAKS || !AllHex(peaks) then None
    else
      Some(Root(stream, leafCount, seq(|peaks|, i requires 0 <= i < |peaks| =>
        PeakRoot(peaks[i].height, peaks[i].start, peaks[i].root.digest))))
  }

  predicate ValidPeaks(stream: Stream, leafCount: U64, peaks: seq<Peak>, expectedRoot: Hex<Digest>) {
    && BlocksOf(peaks) == Layout(leafCount)
    && |peaks| <= MAX_PROOF_PEAKS
    && AllHex(peaks)
    && expectedRoot.Hex?
    && MerkleRoot(stream, leafCount, peaks) == Some(expectedRoot.digest)
  }

  /** The merge loop: while the last peak is as high as the node, both become one node. */
  function Merge(stream: Stream, peaks: seq<Peak>, node: MerkleNode, created: seq<MerkleNode>): (r: Option<Appended>)
    requires node.height <= MAX_PROOF_DEPTH
    decreases |peaks|
  {
    if peaks != [] && peaks[|peaks| - 1].height == node.height then
      var left := peaks[|peaks| - 1];
      if (left.start + Pow2(node.height)) % TWO64 != node.start || node.height == 63 || !left.root.Hex? then None
      else
        var parent := Parent(stream, left, node);
        Merge(stream, peaks[..|peaks| - 1], parent, created + [parent])
    else Some(Appended(peaks + [Peak(node.height, node.start, Hex(node.root))], created))
  }

  function Parent(stream: Stream, left: Peak, node: MerkleNode): MerkleNode
    requires node.height < MAX_PROOF_DEPTH && left.root.Hex?
  {
    MerkleNode(node.height + 1, left.start, Node(stream, node.height + 1, left.start, left.root.digest, node.root))
  }

  /** Checks on entry of the append: genesis has no peaks, any other revision has the canonical ones. */
  predicate AppendAdmits(stream: Stream, previous: seq<Peak>, revision: U64) {
    if revision == 0 then false
    else if revision == 1 then previous == []
    else
      var root := MerkleRoot(stream, revision - 1, previous);
      root.Some? && ValidPeaks(stream, revision - 1, previous, Hex(root.value))
  }

  function AppendLeaf(stream: Stream, previous: seq<Peak>, revision: U64, leaf: Digest): (r: Option<Appended>) {
    if !AppendAdmits(stream, previous, revision) then None
    else
      var node := MerkleNode(0, revision, leaf);
      var merged := Merge(stream, previous, node, [node]);
      if merged.None? then None
      else
        var root := MerkleRoot(stream, revision, merged.value.peaks);
        if root.None? || !ValidPeaks(stream, revision, merged.value.peaks, Hex(root.value)) then None
        else merged
  }

  method AppendMerkleLeaf(stream: Stream, previous: seq<Peak>, revision: U64, leaf: Digest)
    returns (r: Option<Appended>)
    ensures r == AppendLeaf(stream, previous, revision, leaf)
  {
    if !AppendAdmits(stream, previous, revision) {
      return None;
    }
    var peaks := previous;
    var node := MerkleNode(0, revision, leaf);
    var created := [node];
    while peaks != [] && peaks[|peaks| - 1].height == node.height
      invariant node.height <= MAX_PROOF_DEPTH
      invariant Merge(stream, peaks, node, created)
             == Merge(stream, previous, MerkleNode(0, revision, leaf), [MerkleNode(0, revision, leaf)])
      decreases |peaks|
    {
      var left := peaks[|peaks| - 1];
      peaks := peaks[..|peaks| - 1];
      var span := Pow2(node.height);
      if (left.start + span) % TWO64 != node.start || node.height == 63 {
        return None;
      }
      if left.root.Malformed? {
        return None;
      }
      node := Parent(stream, left, node);
      created := created + [node];
    }
    peaks := peaks + [Peak(node.height, node.start, Hex(node.root))];
    var root := MerkleRoot(stream, revision, peaks);
    if root.None? || !ValidPeaks(stream, revision, peaks, Hex(root.value)) {
      return None;
    }
    return Some(Appended(peaks, created));
  }

  // ---- The append refines the recursive tree ----

  /** The state of the merge loop: the node ends at `revision` and the peaks are canonical before it. */
  ghost predicate Merging(peaks: seq<Peak>, node: MerkleNode, revision: U64) {
    && 1 <= node.start && node.height <= MAX_PROOF_DEPTH
    && node.start - 1 + Pow2(node.height) == revision
    && Aligned(node.start - 1, node.height)
    && BlocksOf(peaks) == Layout(node.start - 1)
    && AllHex(peaks)
  }

  lemma {:induction false} LastPeak(peaks: seq<Peak>, node: MerkleNode, revision: U64)
    requires Merging(peaks, node, revision) && peaks != []
    ensures var left := peaks[|peaks| - 1];
      && node.start > 1 && left.height == TrailingZeros(node.start - 1) >= node.height
      && left.start == node.start - Pow2(left.height)
      && BlocksOf(peaks[..|peaks| - 1]) == Layout(left.start - 1)
  {
    var left := peaks[|peaks| - 1];
    assert BlocksOf(peaks)[|peaks| - 1] == Block(left.height, left.start);
    assert node.start - 1 > 0;
    assert BlocksOf(peaks[..|peaks| - 1]) == BlocksOf(peaks)[..|peaks| - 1];
    assert Layout(node.start - 1)[..|peaks| - 1] == Layout(node.start - 1 - Pow2(TrailingZeros(node.start - 1)));
  }

  /** A merge step stays inside the loop's state, so neither of its errors can occur. */
  lemma {:induction false} MergeStep(stream: Stream, peaks: seq<Peak>, node: MerkleNode, revision: U64)
    requires Merging(peaks, node, revision)
    requires peaks != [] && peaks[|peaks| - 1].height == node.height
    ensures node.height < MAX_PROOF_DEPTH
    ensures (peaks[|peaks| - 1].start + Pow2(node.height)) % TWO64 == node.start
    ensures Merging(peaks[..|peaks| - 1], Parent(stream, peaks[|peaks| - 1], node), revision)
  {
    var left := peaks[|peaks| - 1];
    LastPeak(peaks, node, revision);
    ClearLowestBit(node.start - 1);
    assert Pow2(node.height + 1) == 2 * Pow2(node.height);
    HeightBound(revision, node.height + 1);
  }

  lemma {:induction false} MergeEnd(peaks: seq<Peak>, node: MerkleNode, revision: U64)
    requires Merging(peaks, node, revision)
    requires peaks == [] || peaks[|peaks| - 1].height != node.height
    ensures TrailingZeros(revision) == node.height
    ensures BlocksOf(peaks + [Peak(node.height, node.start, Hex(node.root))]) == Layout(revision)
  {
    if peaks == [] {
      assert BlocksOf(peaks) == [];
      LayoutShort(node.start - 1);
    } else {
      LastPeak(peaks, node, revision);
    }
    LowestBitOfSum(node.start - 1, node.height);
    var top := Peak(node.height, node.start, Hex(node.root));
    assert BlocksOf(peaks + [top]) == BlocksOf(peaks) + [Block(node.height, node.start)];
  }

  lemma {:induction false} MergeLayout(stream: Stream, peaks: seq<Peak>, node: MerkleNode, created: seq<MerkleNode>,
                                       revision: U64)
    requires Merging(peaks, node, revision)
    ensures var r := Merge(stream, peaks, node, created);
      r.Some? && BlocksOf(r.value.peaks) == Layout(revision) && AllHex(r.value.peaks)
    decreases |peaks|
  {
    if peaks != [] && peaks[|peaks| - 1].height == node.height {
      MergeStep(stream, peaks, node, revision);
      var parent := Parent(stream, peaks[|peaks| - 1], node);
      MergeLayout(stream, peaks[..|peaks| - 1], parent, created + [parent], revision);
    } else {
      MergeEnd(peaks, node, revision);
    }
  }

  /** A peak whose root is the tree root over its leaf range. */
  ghost predicate TreePeak(stream: Stream, leaves: seq<Digest>, peak: Peak)
    requires |leaves| < TWO64
  {
    && 1 <= peak.start && peak.start - 1 + Pow2(peak.height) <= |leaves|
    && peak.root == Hex(Subtree(stream, leaves, peak.height, peak.start))
  }

  ghost predicate Rooted(stream: Stream, leaves: seq<Digest>, peaks: seq<Peak>)
    requires |leaves| < TWO64
  {
    forall i :: 0 <= i < |peaks| ==> TreePeak(stream, leaves, peaks[i])
  }

  /** The node of height h that ends at the last leaf. */
  ghost predicate TreeNode(stream: Stream, leaves: seq<Digest>, node: MerkleNode, h: nat)
    requires |leaves| < TWO64
  {
    && node.height == h && 1 <= node.start && node.start - 1 + Pow2(h) == |leaves|
    && node.root == Subtree(stream, leaves, h, node.start)
  }

  /** The nodes created so far are the completed nodes up to the current one. */
  ghost predicate CreatedUpTo(stream: Stream, leaves: seq<Digest>, node: MerkleNode, created: seq<MerkleNode>)
    requires |leaves| < TWO64
  {
    && |created| == node.height + 1 && created[node.height] == node
    && forall h :: 0 <= h < |created| ==> TreeNode(stream, leaves, created[h], h)
  }

  /** One merge step keeps the created nodes equal to the tree's. */
  lemma {:induction false} MergeStepRoots(stream: Stream, leaves: seq<Digest>, peaks: seq<Peak>, node: MerkleNode,
                                          created: seq<MerkleNode>)
    requires |leaves| < TWO64
    requires Merging(peaks, node, |leaves|) && Rooted(stream, leaves, peaks)
    requires CreatedUpTo(stream, leaves, node, created)
    requires peaks != [] && peaks[|peaks| - 1].height == node.height < MAX_PROOF_DEPTH
    ensures var parent := Parent(stream, peaks[|peaks| - 1], node);
      CreatedUpTo(stream, leaves, parent, created + [parent])
  {
    var left := peaks[|peaks| - 1];
    var parent := Parent(stream, left, node);
    LastPeak(peaks, node, |leaves|);
    assert TreePeak(stream, leaves, left);
    assert TreeNode(stream, leaves, created[node.height], node.height);
    assert Pow2(node.height + 1) == 2 * Pow2(node.height);
    assert TreeNode(stream, leaves, parent, node.height + 1);
  }

  lemma {:induction false} CompletedFromCreated(stream: Stream, leaves: seq<Digest>, node: MerkleNode,
                                                created: seq<MerkleNode>)
    requires 0 < |leaves| < TWO64
    requires CreatedUpTo(stream, leaves, node, created) && TrailingZeros(|leaves|) == node.height
    ensures created == CompletedNodes(stream, leaves)
  {
    forall h | 0 <= h < |created|
      ensures created[h] == CompletedNode(stream, leaves, h)
    {
      assert TreeNode(stream, leaves, created[h], h);
    }
  }

  lemma {:induction false} RootedPush(stream: Stream, leaves: seq<Digest>, peaks: seq<Peak>, node: MerkleNode)
    requires |leaves| < TWO64 && Rooted(stream, leaves, peaks) && TreeNode(stream, leaves, node, node.height)
    ensures Rooted(stream, leaves, peaks + [Peak(node.height, node.start, Hex(node.root))])
  {
  }

  lemma {:induction false} MergeRoots(stream: Stream, leaves: seq<Digest>, peaks: seq<Peak>, node: MerkleNode,
                                      created: seq<MerkleNode>)
    requires 0 < |leaves| < TWO64
    requires Merging(peaks, node, |leaves|) && Rooted(stream, leaves, peaks)
    requires CreatedUpTo(stream, leaves, node, created)
    ensures var r := Merge(stream, peaks, node, created);
      r.Some? && Rooted(stream, leaves, r.value.peaks) && r.value.created == CompletedNodes(stream, leaves)
    decreases |peaks|
  {
    if peaks != [] && peaks[|peaks| - 1].height == node.height {
      MergeStep(stream, peaks, node, |leaves|);
      MergeStepRoots(stream, leaves, peaks, node, created);
      var parent := Parent(stream, peaks[|peaks| - 1], node);
      MergeRoots(stream, leaves, peaks[..|peaks| - 1], parent, created + [parent]);
    } else {
      MergeEnd(peaks, node, |leaves|);
      CompletedFromCreated(stream, leaves, node, created);
      assert TreeNode(stream, leaves, created[node.height], node.height);
      RootedPush(stream, leaves, peaks, node);
    }
  }

  lemma {:induction false} PeaksFromRoots(stream: Stream, leaves: seq<Digest>, peaks: seq<Peak>)
    requires |leaves| < TWO64
    requires BlocksOf(peaks) == Layout(|leaves|) && Rooted(stream, leaves, peaks)
    ensures peaks == PeaksOf(stream, leaves)
  {
    var expected := PeaksOf(stream, leaves);
    assert |peaks| == |BlocksOf(peaks)| == |expected|;
    forall i | 0 <= i < |peaks|
      ensures peaks[i] == expected[i]
    {
      assert BlocksOf(peaks)[i] == Layout(|leaves|)[i];
      assert TreePeak(stream, leaves, peaks[i]);
    }
  }

  lemma {:induction false} PeaksOfShape(stream: Stream, leaves: seq<Digest>)
    requires |leaves| < TWO64
    ensures BlocksOf(PeaksOf(stream, leaves)) == Layout(|leaves|)
    ensures AllHex(PeaksOf(stream, leaves)) && Rooted(stream, leaves, PeaksOf(stream, leaves))
    ensures |PeaksOf(stream, leaves)| <= MAX_PROOF_PEAKS
  {
    LayoutTiles(|leaves|);
    LayoutShort(|leaves|);
  }

  /** A tree over a range of leaves does not see later leaves. */
  lemma {:induction false} SubtreePrefix(stream: Stream, leaves: seq<Digest>, leaf: Digest, height: U8, start: U64)
    requires |leaves| + 1 < TWO64
    requires 1 <= start && start - 1 + Pow2(height) <= |leaves|
    ensures Subtree(stream, leaves + [leaf], height, start) == Subtree(stream, leaves, height, start)
    decreases height
  {
    if height == 0 {
    } else {
      SubtreePrefix(stream, leaves, leaf, height - 1, start);
      SubtreePrefix(stream, leaves, leaf, height - 1, start + Pow2(height - 1));
    }
  }

  /** Any canonical peak list, whatever its roots: the append succeeds and is canonical again. */
  lemma {:induction false} AppendKeepsLayout(stream: Stream, previous: seq<Peak>, revision: U64, leaf: Digest)
    requires revision > 0
    requires BlocksOf(previous) == Layout(revision - 1) && AllHex(previous)
    ensures var r := AppendLeaf(stream, previous, revision, leaf);
      && r.Some? && AllHex(r.value.peaks)
      && BlocksOf(r.value.peaks) == Layout(revision) && |r.value.peaks| <= MAX_PROOF_PEAKS
  {
    assert |previous| == |BlocksOf(previous)|;
    LayoutShort(revision - 1);
    LayoutShort(revision);
    var node := MerkleNode(0, revision, leaf);
    MergeLayout(stream, previous, node, [node], revision);
    var merged := Merge(stream, previous, node, [node]);
    assert |merged.value.peaks| == |BlocksOf(merged.value.peaks)|;
  }

  /** Appending to the canonical peaks of n leaves gives the canonical peaks of n+1 and the completed nodes. */
  lemma {:induction false} AppendRefinesTree(stream: Stream, leaves: seq<Digest>, leaf: Digest)
    requires |leaves| + 1 < TWO64
    ensures AppendLeaf(stream, PeaksOf(stream, leaves), |leaves| + 1, leaf)
         == Some(Appended(PeaksOf(stream, leaves + [leaf]), CompletedNodes(stream, leaves + [leaf])))
  {
    var previous := PeaksOf(stream, leaves);
    var all := leaves + [leaf];
    PeaksOfShape(stream, leaves);
    AppendKeepsLayout(stream, previous, |leaves| + 1, leaf);
    assert Rooted(stream, all, previous) by {
      forall i | 0 <= i < |previous|
        ensures TreePeak(stream, all, previous[i])
      {
        assert TreePeak(stream, leaves, previous[i]);
        SubtreePrefix(stream, leaves, leaf, previous[i].height, previous[i].start);
      }
    }
    var node := MerkleNode(0, |leaves| + 1, leaf);
    assert CreatedUpTo(stream, all, node, [node]);
    MergeRoots(stream, all, previous, node, [node]);
    MergeLayout(stream, previous, node, [node], |leaves| + 1);
    PeaksFromRoots(stream, all, Merge(stream, previous, node, [node]).value.peaks);
  }

  /** An append creates one node of every height up to the last merge, whatever peaks it starts from. */
  lemma {:induction false} CreatedHeights(stream: Stream, peaks: seq<Peak>, node: MerkleNode, created: seq<MerkleNode>)
    requires node.height <= MAX_PROOF_DEPTH && |created| == node.height + 1
    requires forall i :: 0 <= i < |created| ==> created[i].height == i
    ensures var r := Merge(stream, peaks, node, created);
      r.Some? ==> forall i :: 0 <= i < |r.value.created| ==> r.value.created[i].height == i
    decreases |peaks|
  {
    if peaks != [] && peaks[|peaks| - 1].height == node.height && node.height < 63 && peaks[|peaks| - 1].root.Hex? {
      var parent := Parent(stream, peaks[|peaks| - 1], node);
      CreatedHeights(stream, peaks[..|peaks| - 1], parent, created + [parent]);
    }
  }

  /** One node of each height, every one over the leaves that end at this revision. */
  ghost predicate Stacked(nodes: seq<MerkleNode>, revision: U64) {
    forall i :: 0 <= i < |nodes| ==> nodes[i].height == i && nodes[i].start - 1 + Pow2(i) == revision
  }

  lemma {:induction false} StackedStep(nodes: seq<MerkleNode>, node: MerkleNode, revision: U64)
    requires Stacked(nodes, revision) && node.height == |nodes| && node.start - 1 + Pow2(node.height) == revision
    ensures Stacked(nodes + [node], revision)
  {
  }

  lemma {:induction false} MergeMore(stream: Stream, peaks: seq<Peak>, node: MerkleNode, created: seq<MerkleNode>,
                                     revision: U64)
    requires Merging(peaks, node, revision) && peaks != [] && peaks[|peaks| - 1].height == node.height
    ensures node.height < MAX_PROOF_DEPTH && peaks[|peaks| - 1].root.Hex?
    ensures var parent := Parent(stream, peaks[|peaks| - 1], node);
      && Merging(peaks[..|peaks| - 1], parent, revision)
      && Merge(stream, peaks, node, created) == Merge(stream, peaks[..|peaks| - 1], parent, created + [parent])
  {
    MergeStep(stream, peaks, node, revision);
  }

  /** From canonical peaks the created nodes are stacked, one for each power of two that divides the revision. */
  lemma {:induction false} CreatedPlaces(stream: Stream, peaks: seq<Peak>, node: MerkleNode, created: seq<MerkleNode>,
                                         revision: U64)
    requires Merging(peaks, node, revision) && |created| == node.height + 1 && Stacked(created, revision)
    ensures var r := Merge(stream, peaks, node, created);
      r.Some? && |r.value.created| == TrailingZeros(revision) + 1 && Stacked(r.value.created, revision)
    decreases |peaks|
  {
    if peaks != [] && peaks[|peaks| - 1].height == node.height {
      MergeMore(stream, peaks, node, created, revision);
      var parent := Parent(stream, peaks[|peaks| - 1], node);
      StackedStep(created, parent, revision);
      CreatedPlaces(stream, peaks[..|peaks| - 1], parent, created + [parent], revision);
    } else {
      MergeEnd(peaks, node, revision);
    }
  }

  // ---- How many nodes are ever created ----

  function PopCount(n: nat): nat {
    if n == 0 then 0 else n % 2 + PopCount(n / 2)
  }

  /** Nodes created by the first n appends together. */
  function NodesCreated(n: nat): nat {
    if n == 0 then 0 else NodesCreated(n - 1) + TrailingZeros(n) + 1
  }

  lemma {:induction false} PopCountStep(n: nat)
    requires n > 0
    ensures PopCount(n) + TrailingZeros(n) == PopCount(n - 1) + 1
  {
    if n % 2 == 0 {
      assert (n - 1) / 2 == n / 2 - 1;
      PopCountStep(n / 2);
    }
  }

  lemma {:induction false} NodeCount(n: nat)
    ensures NodesCreated(n) == 2 * n - PopCount(n)
  {
    if n == 0 {
    } else {
      NodeCount(n - 1);
      PopCountStep(n);
    }
  }
}
