/** Heads of a revision stream, the histories they stand for, and the append that extends them. */
module Streams {
  import opened Words
  import opened Digests
  import opened Merkle
  import opened Inclusion

  datatype ProofHead = ProofHead(
    version: nat, leafCount: U64, root: Hex<Digest>, lastContent: Hex<Digest>, peaks: seq<Peak>)

  datatype StreamHead = StreamHead(
    revision: U64, lastOccurredAt: I64, root: Hex<Digest>, proof: Option<ProofHead>)

  datatype Event = Event(occurredAt: I64, payload: Bytes)

  /** What happened so far, oldest event first; event i has revision i + 1. */
  type History = h: seq<Event> | |h| < TWO64

  // ---- The source's head check ----

  predicate ValidHead(stream: Stream, head: StreamHead) {
    && head.revision != 0
    && head.root.Hex?
    && head.proof.Some?
    && var proof := head.proof.value;
       && proof.version == PROOF_VERSION && proof.leafCount == head.revision
       && ValidPeaks(stream, proof.leafCount, proof.peaks, proof.root)
       && proof.lastContent.Hex?
       && Digest.Head(stream, head.revision, head.lastOccurredAt, proof.lastContent.digest, proof.root.digest)
          == head.root.digest
  }

  // ---- Digests of a history ----

  /** The head root after the events of h; the zero root before the first one. */
  function HeadRoot(stream: Stream, h: History): Digest
    decreases |h|, 3
  {
    if h == [] then Zero
    else Digest.Head(stream, |h|, h[|h| - 1].occurredAt, LastContent(stream, h), ProofRoot(stream, h))
  }

  /** The content digest of the last event, which chains to the head root before it. */
  function LastContent(stream: Stream, h: History): Digest
    requires h != []
    decreases |h|, 0
  {
    var last := h[|h| - 1];
    Content(stream, HeadRoot(stream, h[..|h| - 1]), |h|, last.occurredAt, OfPayload(last.payload))
  }

  function Leaves(stream: Stream, h: History): (leaves: seq<Digest>)
    ensures |leaves| == |h|
    decreases |h|, 1
  {
    if h == [] then [] else Leaves(stream, h[..|h| - 1]) + [Leaf(stream, |h|, LastContent(stream, h))]
  }

  function ProofRoot(stream: Stream, h: History): Digest
    requires h != []
    decreases |h|, 2
  {
    var leaves := Leaves(stream, h);
    PeaksOfShape(stream, leaves);
    MerkleRoot(stream, |h|, PeaksOf(stream, leaves)).value
  }

  /** The head that the stream must show after the events of h. */
  function HeadOf(stream: Stream, h: History): StreamHead
    requires h != []
  {
    StreamHead(|h|, h[|h| - 1].occurredAt, Hex(HeadRoot(stream, h)),
      Some(ProofHead(PROOF_VERSION, |h|, Hex(ProofRoot(stream, h)), Hex(LastContent(stream, h)),
                     PeaksOf(stream, Leaves(stream, h)))))
  }

  function HeadOption(stream: Stream, h: History): Option<StreamHead> {
    if h == [] then None else Some(HeadOf(stream, h))
  }

  predicate Chronological(h: History) {
    forall i, j :: 0 <= i <= j < |h| ==> h[i].occurredAt <= h[j].occurredAt
  }

  lemma {:induction false} LeafAt(stream: Stream, h: History, revision: U64)
    requires 1 <= revision <= |h|
    ensures Leaves(stream, h)[revision - 1] == Leaf(stream, revision, LastContent(stream, h[..revision]))
    decreases |h|
  {
    if revision == |h| {
      assert h[..revision] == h;
    } else {
      LeafAt(stream, h[..|h| - 1], revision);
      assert h[..|h| - 1][..revision] == h[..revision];
    }
  }

  // ---- The append ----

  /** The digests and nodes that one append adds to a stream. */
  datatype Extension = Extension(
    head: StreamHead, previousRoot: Digest, content: Digest, proofRoot: Digest, root: Digest, created: seq<MerkleNode>)

  /** The checks on revision, expected head and time, without the side items. */
  predicate Extendable(stream: Stream, expected: Option<StreamHead>, revision: U64, occurredAt: I64) {
    match expected
    case None => revision == 1
    case Some(head) =>
      && ValidHead(stream, head) && head.revision != U64_MAX && revision == head.revision + 1
      && head.lastOccurredAt <= occurredAt
  }

  function Extend(stream: Stream, expected: Option<StreamHead>, revision: U64, event: Event): (r: Option<Extension>) {
    if !Extendable(stream, expected, revision, event.occurredAt) then None
    else
      var previousRoot := if expected.None? then Zero else expected.value.root.digest;
      var previousPeaks := if expected.None? then [] else expected.value.proof.value.peaks;
      var content := Content(stream, previousRoot, revision, event.occurredAt, OfPayload(event.payload));
      var appended := AppendLeaf(stream, previousPeaks, revision, Leaf(stream, revision, content));
      if appended.None? then None
      else
        var peaks := appended.value.peaks;
        var proofRoot := MerkleRoot(stream, revision, peaks);
        if proofRoot.None? then None
        else
          var root := Digest.Head(stream, revision, event.occurredAt, content, proofRoot.value);
          var proof := ProofHead(PROOF_VERSION, revision, Hex(proofRoot.value), Hex(content), peaks);
          Some(Extension(StreamHead(revision, event.occurredAt, Hex(root), Some(proof)),
                         previousRoot, content, proofRoot.value, root, appended.value.created))
  }

  /** Every admitted append succeeds, and its head passes the head check again with a later or equal time. */
  lemma {:induction false} ExtendValid(stream: Stream, expected: Option<StreamHead>, revision: U64, event: Event)
    requires Extendable(stream, expected, revision, event.occurredAt)
    ensures var r := Extend(stream, expected, revision, event);
      && r.Some? && ValidHead(stream, r.value.head)
      && r.value.head.revision == revision == r.value.head.proof.value.leafCount
      && (expected.Some? ==> revision == expected.value.revision + 1
                             && expected.value.lastOccurredAt <= r.value.head.lastOccurredAt)
  {
    var previousRoot := if expected.None? then Zero else expected.value.root.digest;
    var previousPeaks := if expected.None? then [] else expected.value.proof.value.peaks;
    var content := Content(stream, previousRoot, revision, event.occurredAt, OfPayload(event.payload));
    AppendKeepsLayout(stream, previousPeaks, revision, Leaf(stream, revision, content));
  }

  lemma {:induction false} HeadOfValid(stream: Stream, h: History)
    requires h != []
    ensures ValidHead(stream, HeadOf(stream, h))
  {
    PeaksOfShape(stream, Leaves(stream, h));
  }

  /** An append at the head of a history extends that history. */
  lemma {:induction false} ExtendHistory(stream: Stream, h: History, event: Event)
    requires |h| + 1 < TWO64
    requires h != [] ==> h[|h| - 1].occurredAt <= event.occurredAt
    ensures var all := h + [event];
      Extend(stream, HeadOption(stream, h), |h| + 1, event) ==
      Some(Extension(HeadOf(stream, all), HeadRoot(stream, h), LastContent(stream, all), ProofRoot(stream, all),
                     HeadRoot(stream, all), CompletedNodes(stream, Leaves(stream, all))))
  {
    var all := h + [event];
    assert all[..|h|] == h;
    if h == [] {
      assert PeaksOf(stream, Leaves(stream, h)) == [];
    } else {
      HeadOfValid(stream, h);
    }
    AppendRefinesTree(stream, Leaves(stream, h), Leaf(stream, |h| + 1, LastContent(stream, all)));
  }

  // ---- A head binds its history ----

  lemma {:induction false} HeadRootBindsHistory(stream: Stream, h: History, k: History)
    requires HeadRoot(stream, h) == HeadRoot(stream, k)
    ensures h == k
    decreases |h|
  {
    if h != [] {
      assert LastContent(stream, h) == LastContent(stream, k);
      HeadRootBindsHistory(stream, h[..|h| - 1], k[..|k| - 1]);
      assert h == h[..|h| - 1] + [h[|h| - 1]];
      assert k == k[..|k| - 1] + [k[|k| - 1]];
    } else {
      assert k == [];
    }
  }

  /** A head that passes the check and shows a history's root is that history's head in every field. */
  lemma {:induction false} RootBindsHead(stream: Stream, head: StreamHead, h: History)
    requires ValidHead(stream, head) && head.root == Hex(HeadRoot(stream, h))
    ensures h != [] && head == HeadOf(stream, h)
  {
    assert h != [];
    var leaves := Leaves(stream, h);
    PeaksOfShape(stream, leaves);
    PeaksFromRoot(stream, |h|, head.proof.value.peaks, PeaksOf(stream, leaves));
  }

  /** The proof root determines the peak list. */
  lemma {:induction false} PeaksFromRoot(stream: Stream, leafCount: U64, a: seq<Peak>, b: seq<Peak>)
    requires MerkleRoot(stream, leafCount, a).Some?
    requires MerkleRoot(stream, leafCount, a) == MerkleRoot(stream, leafCount, b)
    ensures a == b
  {
    var x, y := MerkleRoot(stream, leafCount, a).value.peaks, MerkleRoot(stream, leafCount, b).value.peaks;
    assert |a| == |x| == |y| == |b|;
    forall i | 0 <= i < |a|
      ensures a[i] == b[i]
    {
      assert x[i] == y[i];
    }
  }

  // ---- Whole runs of appends ----

  /** One append of a run: the request expects the head that the run has reached. */
  function NextHead(stream: Stream, head: Option<StreamHead>, event: Event): (r: Option<StreamHead>) {
    if head.Some? && head.value.revision == U64_MAX then None
    else
      var extended := Extend(stream, head, if head.None? then 1 else head.value.revision + 1, event);
      if extended.None? then None else Some(extended.value.head)
  }

  /** The head after a run of appends, or None when one of them is refused. */
  function RunAppends(stream: Stream, events: seq<Event>): (head: Option<Option<StreamHead>>)
    decreases |events|
  {
    if events == [] then Some(None)
    else
      var before := RunAppends(stream, events[..|events| - 1]);
      if before.None? then None
      else
        var next := NextHead(stream, before.value, events[|events| - 1]);
        if next.None? then None else Some(next)
  }

  /** There is room for an event, and its time is not before the last one. */
  predicate Appendable(h: History, event: Event) {
    |h| + 1 < TWO64 && (h == [] || h[|h| - 1].occurredAt <= event.occurredAt)
  }

  lemma {:induction false} NextHeadExtends(stream: Stream, h: History, event: Event)
    requires Appendable(h, event)
    ensures NextHead(stream, HeadOption(stream, h), event) == HeadOption(stream, h + [event])
  {
    ExtendHistory(stream, h, event);
  }

  lemma {:induction false} NextHeadRefused(stream: Stream, h: History, event: Event)
    requires !Appendable(h, event)
    ensures NextHead(stream, HeadOption(stream, h), event).None?
  {
  }

  /** A run succeeds exactly on chronological events below the revision bound, and ends at the history's head. */
  lemma {:induction false} RunIsHistory(stream: Stream, events: seq<Event>)
    ensures RunAppends(stream, events).Some? <==> |events| < TWO64 && Chronological(events)
    ensures RunAppends(stream, events).Some? ==> RunAppends(stream, events).value == HeadOption(stream, events)
    decreases |events|
  {
    if events == [] {
    } else {
      var front, last := events[..|events| - 1], events[|events| - 1];
      assert events == front + [last];
      RunIsHistory(stream, front);
      if |events| < TWO64 {
        ChronologicalSplit(front, last);
      }
      if RunAppends(stream, front).Some? {
        if Appendable(front, last) {
          NextHeadExtends(stream, front, last);
        } else {
          NextHeadRefused(stream, front, last);
        }
      }
    }
  }

  lemma {:induction false} ChronologicalSplit(h: History, event: Event)
    requires |h| + 1 < TWO64
    ensures Chronological(h + [event]) <==> Chronological(h) && Appendable(h, event)
  {
    var all := h + [event];
    assert forall i :: 0 <= i < |h| ==> all[i] == h[i];
    if Chronological(all) && h != [] {
      assert all[|h| - 1].occurredAt <= all[|h|].occurredAt;
    }
    if Chronological(h) && h != [] {
      assert forall i :: 0 <= i < |h| ==> h[i].occurredAt <= h[|h| - 1].occurredAt;
    }
  }

  /** Two runs of one stream that end with equal head roots appended the same events. */
  lemma {:induction false} EqualRootsEqualRuns(stream: Stream, a: seq<Event>, b: seq<Event>)
    requires RunAppends(stream, a).Some? && RunAppends(stream, b).Some?
    requires RunAppends(stream, a).value.Some? && RunAppends(stream, b).value.Some?
    requires RunAppends(stream, a).value.value.root == RunAppends(stream, b).value.value.root
    ensures a == b
  {
    RunIsHistory(stream, a);
    RunIsHistory(stream, b);
    HeadRootBindsHistory(stream, a, b);
  }
}
