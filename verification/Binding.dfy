/** The head of a stream as 32 real bytes, and the history it binds under any hash function. */
module Binding {
  import opened Words
  import opened Digests
  import opened Keys
  import opened Merkle
  import opened Streams
  import opened Preimages

  lemma {:induction false} SubtreeOpened(stream: Stream, leaves: seq<Digest>, height: U8, start: U64)
    requires |stream| <= MAX_STREAM_BYTES && |leaves| < TWO64 && 1 <= start && start - 1 + Pow2(height) <= |leaves|
    requires forall i :: 0 <= i < |leaves| ==> Opened(leaves[i])
    ensures Opened(Subtree(stream, leaves, height, start))
    decreases height
  {
    if height == 0 {
    } else {
      SubtreeOpened(stream, leaves, height - 1, start);
      SubtreeOpened(stream, leaves, height - 1, start + Pow2(height - 1));
    }
  }

  lemma {:induction false} ProofRootOpened(stream: Stream, h: History)
    requires |stream| <= MAX_STREAM_BYTES && h != []
    requires forall i :: 0 <= i < |h| ==> Opened(Leaves(stream, h)[i])
    ensures Opened(ProofRoot(stream, h))
  {
    var leaves := Leaves(stream, h);
    var peaks := PeaksOf(stream, leaves);
    PeaksOfShape(stream, leaves);
    forall i | 0 <= i < |peaks|
      ensures Opened(peaks[i].root.digest)
    {
      assert TreePeak(stream, leaves, peaks[i]);
      SubtreeOpened(stream, leaves, peaks[i].height, peaks[i].start);
    }
  }

  /** Every digest of a history is the hash of known bytes. */
  lemma {:induction false} HistoryOpened(stream: Stream, h: History)
    requires |stream| <= MAX_STREAM_BYTES
    ensures Opened(HeadRoot(stream, h))
    ensures forall i :: 0 <= i < |h| ==> Opened(Leaves(stream, h)[i])
    decreases |h|
  {
    if h == [] {
    } else {
      HistoryOpened(stream, h[..|h| - 1]);
      ProofRootOpened(stream, h);
    }
  }

  /** The 32 bytes shown as the head root after a history. */
  function RootBytes(sha: Hash, stream: Stream, h: History): Digest32
    requires |stream| <= MAX_STREAM_BYTES
  {
    HistoryOpened(stream, h);
    Render(sha, HeadRoot(stream, h))
  }

  /**
   Equal head-root bytes mean equal histories, for every hash function that has no collision
   among the strings hashed for the two heads and hashes none of them to the zero root.
   */
  lemma {:induction false} RootBytesBindHistory(sha: Hash, stream: Stream, h: History, k: History)
    requires |stream| <= MAX_STREAM_BYTES && Opened(HeadRoot(stream, h)) && Opened(HeadRoot(stream, k))
    requires Separates(sha, Hashed(sha, HeadRoot(stream, h)) + Hashed(sha, HeadRoot(stream, k)))
    requires RootBytes(sha, stream, h) == RootBytes(sha, stream, k)
    ensures h == k
  {
    var hashed := Hashed(sha, HeadRoot(stream, h)) + Hashed(sha, HeadRoot(stream, k));
    RenderInjective(sha, HeadRoot(stream, h), HeadRoot(stream, k), hashed);
    HeadRootBindsHistory(stream, h, k);
  }
}
