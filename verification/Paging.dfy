/** Whole paging runs: what is read by following continuations from a first page to the end. */
module Paging {
  import opened Words
  import opened Digests
  import opened Merkle
  import opened Inclusion
  import opened Streams
  import opened Query

  /** A request that was sent, the page that came back for it, and what decoding it gave. */
  datatype Exchange = Exchange(request: Request, wire: WirePage, accepted: Accepted)

  /** A request made by one of the two first-page constructors. */
  predicate FirstRequest(request: Request) {
    && ValidRequest(request)
    && request.afterRevision.None? && request.expectedWindow.None?
    && request.previousRoot.None? && request.minimumLive.None?
  }

  predicate Answered(e: Exchange) {
    DecodePage(e.request, e.wire) == Some(e.accepted)
  }

  /** The request of b is the continuation of the page of a. */
  predicate Continues(a: Exchange, b: Exchange) {
    && a.accepted.continuation.Some?
    && NextRequest(a.accepted.continuation.value, b.request.limit) == Some(b.request)
  }

  /** Every page was accepted and every later request continues the page before it. */
  ghost predicate Run(run: seq<Exchange>) {
    && run != [] && FirstRequest(run[0].request)
    && (forall i {:trigger Answered(run[i])} :: 0 <= i < |run| ==> Answered(run[i]))
    && (forall i, j {:trigger Continues(run[i], run[j])} :: 0 <= i < j < |run| && j == i + 1 ==>
          Continues(run[i], run[j]))
  }

  /** All entries of the first n pages, in the order they came. */
  function EntriesRead(run: seq<Exchange>, n: nat): seq<Entry>
    requires n <= |run|
  {
    if n == 0 then [] else EntriesRead(run, n - 1) + run[n - 1].accepted.page.entries
  }

  /** A continuation yields a valid next request for every limit from 1 to 1000, and for no other. */
  lemma {:induction false} NextRequestSucceeds(request: Request, wire: WirePage, limit: U64)
    requires ValidRequest(request)
    requires DecodePage(request, wire).Some? && DecodePage(request, wire).value.continuation.Some?
    ensures NextRequest(DecodePage(request, wire).value.continuation.value, limit).Some? <==> 1 <= limit <= 1_000
  {
  }

  /** Entries with consecutive revisions from `first`, each naming the root of the one before it. */
  ghost predicate Consecutive(entries: seq<Entry>, first: int) {
    && (forall i :: 0 <= i < |entries| ==> entries[i].revision == first + i)
    && (forall i, j :: 0 <= i < j < |entries| && j == i + 1 ==> entries[j].previousRoot == entries[i].root)
  }

  lemma {:induction false} ConsecutiveAppend(a: seq<Entry>, b: seq<Entry>, first: int)
    requires Consecutive(a, first) && a != [] && Consecutive(b, first + |a|)
    requires b != [] ==> b[0].previousRoot == a[|a| - 1].root
    ensures Consecutive(a + b, first)
  {
    var all := a + b;
    forall i, j | 0 <= i < j < |all| && j == i + 1
      ensures all[j].previousRoot == all[i].root
    {
      if j < |a| {
        assert all[i] == a[i] && all[j] == a[j];
      } else if i >= |a| {
        assert all[i] == b[i - |a|] && all[j] == b[j - |a|];
      }
    }
  }

  lemma {:induction false} PageRevisions(request: Request, page: Page, i: nat)
    requires page.pinned.proof.Some? && EntriesVerified(request, page) && i < |page.entries|
    ensures page.entries[i].revision == page.entries[0].revision + i
  {
    if i == 0 {
    } else {
      PageRevisions(request, page, i - 1);
      assert page.entries[i - 1].revision + 1 == page.entries[i].revision;
    }
  }

  lemma {:induction false} PageConsecutive(request: Request, page: Page)
    requires page.pinned.proof.Some? && EntriesVerified(request, page) && page.entries != []
    ensures Consecutive(page.entries, page.entries[0].revision)
  {
    forall i | 0 <= i < |page.entries|
      ensures page.entries[i].revision == page.entries[0].revision + i
    {
      PageRevisions(request, page, i);
    }
  }

  /** The first revision a request asks for. */
  function Start(request: Request, window: Range): int
    requires window.first.Some?
  {
    if request.afterRevision.Some? then request.afterRevision.value + 1 else window.first.value
  }

  /** What acceptance says about the shape of one page, digests of the history aside. */
  ghost predicate Shape(e: Exchange) {
    var request, page, c := e.request, e.accepted.page, e.accepted.continuation;
    && (request.pinned.Some? ==> page.pinned == request.pinned.value)
    && (request.expectedWindow.Some? ==> page.window == request.expectedWindow.value)
    && (request.minimumLive.Some? ==> NotBefore(page.live, request.minimumLive.value))
    && (page.hasMore <==> c.Some?)
    && (if page.window.first.None? then
          page.window.last.None? && request.afterRevision.None? && page.entries == [] && c.None?
        else
          && page.window.last.Some?
          && (page.entries == [] ==> request.afterRevision == page.window.last)
          && var start := Start(request, page.window);
             && start >= page.window.first.value
             && start + |page.entries| - 1 <= page.window.last.value
             && Consecutive(page.entries, start)
             && (page.entries != [] && request.previousRoot.Some? ==>
                   page.entries[0].previousRoot == Hex(request.previousRoot.value))
             && (c.Some? <==> page.entries != [] && start + |page.entries| - 1 < page.window.last.value)
             && (c.Some? ==>
                  && page.entries[|page.entries| - 1].root.Hex?
                  && 0 <= start + |page.entries| - 1 < TWO64
                  && c.value == Continuation(request.stream, request.from, request.until, page.pinned,
                       start + |page.entries| - 1, page.window, page.entries[|page.entries| - 1].root.digest,
                       page.live)))
  }

  /** The parts of page acceptance that the shape rests on. */
  ghost predicate Parts(e: Exchange) {
    var request, wire, page, c := e.request, e.wire, e.accepted.page, e.accepted.continuation;
    && wire.pinned == Some(page.pinned) && page.hasMore == wire.hasMore && page.next == wire.next
    && page.entries == wire.entries
    && (request.pinned.Some? ==> page.pinned == request.pinned.value)
    && (request.minimumLive.Some? ==> NotBefore(page.live, request.minimumLive.value))
    && page.window.first.Some? == page.window.last.Some? && page.range.first.Some? == page.range.last.Some?
    && BoundsAccepted(request, wire, page.window, page.range) && CursorVerified(request, page)
    && (page.entries != [] && request.previousRoot.Some? ==>
          page.entries[0].previousRoot == Hex(request.previousRoot.value))
    && (c.Some? <==> page.hasMore)
    && (page.hasMore ==>
         && page.entries != [] && page.next.Some? && page.entries[|page.entries| - 1].root.Hex?
         && c.value
            == Continuation(request.stream, request.from, request.until, page.pinned, page.next.value, page.window,
                                    page.entries[|page.entries| - 1].root.digest, page.live))
  }

  lemma {:induction false} AcceptedParts(e: Exchange)
    requires Answered(e)
    ensures Parts(e)
  {
    if e.wire.hasMore {
      assert EntryDecodes(e.wire.entries[|e.wire.entries| - 1], e.wire.pinned.value.revision);
    }
  }

  lemma {:induction false} AcceptedEntries(e: Exchange)
    requires Answered(e) && e.accepted.page.entries != []
    ensures Consecutive(e.accepted.page.entries, e.accepted.page.entries[0].revision)
  {
    PageConsecutive(e.request, e.accepted.page);
  }

  lemma {:induction false} ShapeOfParts(e: Exchange)
    requires Parts(e)
    requires e.accepted.page.entries != [] ==> Consecutive(e.accepted.page.entries, e.accepted.page.entries[0].revision)
    ensures Shape(e)
  {
    var page := e.accepted.page;
    if page.entries != [] {
      assert page.entries[|page.entries| - 1].revision == page.entries[0].revision + |page.entries| - 1;
    }
  }

  lemma {:induction false} PageShape(e: Exchange)
    requires Answered(e)
    ensures Shape(e)
  {
    AcceptedParts(e);
    if e.accepted.page.entries != [] {
      AcceptedEntries(e);
    }
    ShapeOfParts(e);
  }

  /** A run seen only through the shapes of its pages. */
  ghost predicate Shaped(run: seq<Exchange>) {
    && run != [] && run[0].request.afterRevision.None?
    && (forall i {:trigger Shape(run[i])} :: 0 <= i < |run| ==> Shape(run[i]))
    && (forall i, j {:trigger Continues(run[i], run[j])} :: 0 <= i < j < |run| && j == i + 1 ==>
          Continues(run[i], run[j]))
  }

  lemma {:induction false} RunShaped(run: seq<Exchange>)
    requires Run(run)
    ensures Shaped(run)
  {
    forall i | 0 <= i < |run|
      ensures Shape(run[i])
    {
      assert Answered(run[i]);
      PageShape(run[i]);
    }
  }

  /** What the first n pages have established. */
  ghost predicate Progress(run: seq<Exchange>, n: nat)
    requires 1 <= n <= |run|
  {
    var first, last := run[0].accepted.page, run[n - 1].accepted.page;
    var entries := EntriesRead(run, n);
    && last.pinned == first.pinned && last.window == first.window && NotBefore(last.live, first.live)
    && run[n - 1].request.stream == run[0].request.stream
    && run[n - 1].request.from == run[0].request.from && run[n - 1].request.until == run[0].request.until
    && (if first.window.first.None? then n == 1 && entries == [] && !last.hasMore
        else
          && first.window.last.Some?
          && var size := first.window.last.value - first.window.first.value + 1;
             && n <= |entries| <= size
             && Consecutive(entries, first.window.first.value)
             && last.entries != [] && entries[|entries| - 1] == last.entries[|last.entries| - 1]
             && (last.hasMore <==> |entries| < size))
  }

  lemma {:induction false} FirstProgress(run: seq<Exchange>)
    requires run != [] && run[0].request.afterRevision.None? && Shape(run[0])
    ensures Progress(run, 1)
  {
    assert EntriesRead(run, 1) == run[0].accepted.page.entries;
  }

  lemma {:induction false} NextProgress(run: seq<Exchange>, n: nat)
    requires Shaped(run) && 1 <= n < |run| && Progress(run, n)
    ensures Progress(run, n + 1)
  {
    assert Shape(run[n - 1]) && Shape(run[n]) && Continues(run[n - 1], run[n]);
    var first, a, b := run[0].accepted.page, run[n - 1], run[n];
    assert a.accepted.page.hasMore;
    assert a.accepted.page.entries[|a.accepted.page.entries| - 1].revision == b.request.afterRevision.value;
    ConsecutiveAppend(EntriesRead(run, n), b.accepted.page.entries, first.window.first.value);
  }

  lemma {:induction false} RunProgress(run: seq<Exchange>, n: nat)
    requires Shaped(run) && 1 <= n <= |run|
    ensures Progress(run, n)
  {
    if n == 1 {
      assert Shape(run[0]);
      FirstProgress(run);
    } else {
      RunProgress(run, n - 1);
      NextProgress(run, n - 1);
    }
  }

  /**
   The whole run. Every page shows the same pinned head and window and a live head that never
   goes back; there are never more pages than events in the window; and when the last page has
   no continuation, the entries read are the window's revisions in order, none missing, none twice.
   */
  lemma {:induction false} RunReadsWindow(run: seq<Exchange>)
    requires Run(run)
    ensures var first, last := run[0].accepted.page, run[|run| - 1].accepted.page;
      var entries := EntriesRead(run, |run|);
      && last.pinned == first.pinned && last.window == first.window && Follows(last.live, first.live)
      && (first.window.first.None? ==> |run| == 1 && entries == [])
      && (first.window.first.Some? ==>
           && first.window.last.Some?
           && Consecutive(entries, first.window.first.value)
           && var size := first.window.last.value - first.window.first.value + 1;
              |run| <= |entries| <= size && (!last.hasMore <==> |entries| == size))
  {
    RunShaped(run);
    RunProgress(run, |run|);
  }

  /** A head seen later: revision and time have not fallen, and a head of the same revision is the same head. */
  ghost predicate Follows(later: StreamHead, earlier: StreamHead) {
    && earlier.revision <= later.revision && earlier.lastOccurredAt <= later.lastOccurredAt
    && (earlier.revision == later.revision ==> later == earlier)
  }

  /**
   The live head of every later page is no earlier than that of every earlier page, and none is
   earlier than the pinned head, which all pages share.
   */
  lemma {:induction false} LiveNeverGoesBack(run: seq<Exchange>, i: nat, j: nat)
    requires Run(run) && i <= j < |run|
    ensures Follows(run[j].accepted.page.live, run[i].accepted.page.live)
    ensures Follows(run[j].accepted.page.live, run[i].accepted.page.pinned)
    ensures run[j].accepted.page.pinned == run[i].accepted.page.pinned
    ensures run[0].request.pinned.None? ==> run[0].accepted.page.live == run[0].accepted.page.pinned
  {
    RunShaped(run);
    LiveOfShapes(run, i, j);
    SamePinned(run, i);
    SamePinned(run, j);
    assert Answered(run[j]) && Answered(run[0]);
    HeadsShow(run[j]);
    HeadsShow(run[0]);
  }

  lemma {:induction false} SamePinned(run: seq<Exchange>, i: nat)
    requires Shaped(run) && i < |run|
    ensures run[i].accepted.page.pinned == run[0].accepted.page.pinned
  {
    RunProgress(run, i + 1);
  }

  lemma {:induction false} HeadsShow(e: Exchange)
    requires Answered(e)
    ensures Follows(e.accepted.page.live, e.accepted.page.pinned)
    ensures e.request.pinned.None? ==> e.accepted.page.live == e.accepted.page.pinned
  {
  }

  /** What a valid request says, in numbers. */
  ghost predicate RequestInBounds(request: Request) {
    && 1 <= |request.stream| <= 1_024 && request.from < request.until && 1 <= request.limit <= 1_000
    && (request.pinned.Some? ==> ValidHead(request.stream, request.pinned.value))
    && (request.afterRevision.Some? ==>
         request.pinned.Some? && 1 <= request.afterRevision.value < request.pinned.value.revision)
  }

  /**
   Every request of a run is in bounds, and every later one asks for the same range of the same pinned
   head, from where the page before it ended.
   */
  lemma {:induction false} RunRequests(run: seq<Exchange>, i: nat)
    requires Run(run) && i < |run|
    ensures RequestInBounds(run[i].request)
    ensures i > 0 ==>
      var first, before, request := run[0], run[i - 1].accepted.page, run[i].request;
      && request.stream == first.request.stream && request.from == first.request.from
      && request.until == first.request.until && request.pinned == Some(first.accepted.page.pinned)
      && request.expectedWindow == Some(first.accepted.page.window) && request.minimumLive == Some(before.live)
      && before.entries != []
      && request.afterRevision == Some(before.entries[|before.entries| - 1].revision)
      && request.previousRoot.Some? && before.entries[|before.entries| - 1].root == Hex(request.previousRoot.value)
  {
    if i > 0 {
      RunShaped(run);
      RunProgress(run, i);
      assert Shape(run[i - 1]) && Continues(run[i - 1], run[i]);
    }
  }

  /** The heads of an accepted page, and the proof it claims to be checked by. */
  ghost predicate ShowsHeads(request: Request, page: Page) {
    && ValidHead(request.stream, page.pinned) && ValidHead(request.stream, page.live)
    && (request.pinned.Some? ==> page.pinned == request.pinned.value)
    && (request.pinned.None? ==> page.live == page.pinned)
    && page.proof.version == 1 && page.proof.scheme == "talon_mmr_sha256_v1"
    && page.proof.root == page.pinned.proof.value.root
  }

  /** Its window, its bounds and its cursor. */
  ghost predicate ShowsBounds(request: Request, page: Page) {
    && page.window.first.Some? == page.window.last.Some?
    && (page.window.first.Some? ==> 1 <= page.window.first.value <= page.window.last.value <= page.pinned.revision)
    && (page.entries == [] <==> page.range.first.None?)
    && (page.entries != [] ==>
         && page.range.first == Some(page.entries[0].revision)
         && page.range.last == Some(page.entries[|page.entries| - 1].revision))
    && (page.hasMore ==> page.next == page.range.last) && (!page.hasMore ==> page.next.None?)
    && (request.afterRevision.Some? ==>
         && page.window.first.Some?
         && page.window.first.value <= request.afterRevision.value <= page.window.last.value
         && request.afterRevision.value < page.pinned.revision)
  }

  /** Its entries: no more than were asked for, all in the time range and in the window. */
  ghost predicate ShowsEntries(request: Request, page: Page) {
    && |page.entries| <= request.limit && page.window.first.Some? == page.window.last.Some?
    && forall i :: 0 <= i < |page.entries| ==>
         && request.from <= page.entries[i].occurredAt < request.until && page.window.first.Some?
         && page.window.first.value <= page.entries[i].revision <= page.window.last.value
  }

  /** The proofs of a page: of the first version, for their own revision, with at most 63 siblings. */
  ghost predicate ShowsInclusion(proof: InclusionProof, revision: U64) {
    && proof.version == 1 && proof.revision == revision && revision > 0 && |proof.siblings| <= 63 && proof.leaf.Hex?
    && forall i :: 0 <= i < |proof.siblings| ==> proof.siblings[i].height == i && proof.siblings[i].root.Hex?
  }

  ghost predicate ShowsPoint(point: Option<ProofPoint>) {
    point.Some? ==>
      && ShowsInclusion(point.value.inclusion, point.value.revision)
      && point.value.payloadSha.Hex? && point.value.previousRoot.Hex? && point.value.content.Hex?
      && point.value.proofRoot.Hex? && point.value.root.Hex?
  }

  ghost predicate ShowsProofs(page: Page) {
    && |page.proof.entryProofs| == |page.entries| <= 1_000
    && (forall i :: 0 <= i < |page.entries| ==>
         ShowsInclusion(page.proof.entryProofs[i], page.entries[i].revision))
    && ShowsPoint(page.proof.windowPredecessor) && ShowsPoint(page.proof.windowFirst)
    && ShowsPoint(page.proof.windowLast) && ShowsPoint(page.proof.windowSuccessor)
    && ShowsPoint(page.proof.pageSuccessor)
    && (page.window.first.None? ==> page.proof.windowFirst.None? && page.proof.windowLast.None?)
    && (page.window.first == Some(1) ==> page.proof.windowPredecessor.None?)
    && (page.window.last == Some(page.pinned.revision) ==> page.proof.windowSuccessor.None?)
  }

  lemma {:induction false} IncludedShows(stream: Stream, peaks: seq<Peak>, revision: U64, content: Digest,
                                         proof: InclusionProof)
    requires Included(stream, peaks, revision, content, proof) && InclusionDecodes(proof)
    ensures ShowsInclusion(proof, revision)
  {
    forall i | 0 <= i < |proof.siblings|
      ensures proof.siblings[i].height == i
    {
      var peak := peaks[proof.peakIndex];
      if proof.siblings[i].height != i {
        ClimbStuck(stream, peak.start, revision - peak.start, Leaf(stream, revision, content), proof.siblings, i + 1,
                   peak.height);
      }
    }
  }

  /** An accepted page shows what was asked for. */
  lemma {:induction false} PageShows(e: Exchange)
    requires Answered(e)
    ensures ShowsHeads(e.request, e.accepted.page)
    ensures ShowsBounds(e.request, e.accepted.page)
    ensures ShowsEntries(e.request, e.accepted.page)
  {
    AcceptedParts(e);
    WindowKept(e);
    AcceptedProofs(e);
    HeadsKept(e);
  }

  lemma {:induction false} HeadsKept(e: Exchange)
    requires Answered(e)
    ensures ShowsHeads(e.request, e.accepted.page)
  {
  }

  lemma {:induction false} WindowKept(e: Exchange)
    requires Answered(e)
    ensures var window := e.accepted.page.window;
      && window.first.Some? == window.last.Some?
      && (window.first.Some? ==> 1 <= window.first.value <= window.last.value)
      && e.wire.windowFirst == window.first && e.wire.windowLast == window.last
  {
  }

  /** The accepted page is the page that was sent. */
  lemma {:induction false} PageKept(e: Exchange)
    requires Answered(e)
    ensures e.wire.pinned == Some(e.accepted.page.pinned) && e.wire.live == Some(e.accepted.page.live)
    ensures e.wire.windowFirst == e.accepted.page.window.first && e.wire.windowLast == e.accepted.page.window.last
    ensures e.wire.pageFirst == e.accepted.page.range.first && e.wire.pageLast == e.accepted.page.range.last
    ensures e.wire.entries == e.accepted.page.entries && e.wire.proof == e.accepted.page.proof
    ensures e.wire.hasMore == e.accepted.page.hasMore && e.wire.next == e.accepted.page.next
  {
  }

  lemma {:induction false} LiveOfShapes(run: seq<Exchange>, i: nat, j: nat)
    requires Shaped(run) && i <= j < |run|
    ensures NotBefore(run[j].accepted.page.live, run[i].accepted.page.live)
    decreases j
  {
    if i < j {
      LiveOfShapes(run, i, j - 1);
      assert Shape(run[j - 1]) && Shape(run[j]) && Continues(run[j - 1], run[j]);
    }
  }

  lemma {:induction false} PointStands(stream: Stream, pinned: StreamHead, point: Option<ProofPoint>)
    requires PointDecodes(point)
    requires point.Some? ==> pinned.proof.Some? && PointVerified(stream, pinned, point.value)
    ensures ShowsPoint(point)
  {
    if point.Some? {
      var p := point.value;
      IncludedShows(stream, pinned.proof.value.peaks, p.revision, p.content.digest, p.inclusion);
    }
  }

  lemma {:induction false} EntryProofStands(request: Request, page: Page, i: nat)
    requires page.pinned.proof.Some? && EntriesVerified(request, page) && ProofDecodes(page.proof) && i < |page.entries|
    ensures ShowsInclusion(page.proof.entryProofs[i], page.entries[i].revision)
  {
    var entry, proof := page.entries[i], page.proof.entryProofs[i];
    assert EntryVerified(request.stream, page.pinned, entry, proof) && InclusionDecodes(proof);
    IncludedShows(request.stream, page.pinned.proof.value.peaks, entry.revision, entry.content.digest, proof);
  }

  /** The proofs of an accepted page: one per entry, and points only where the window has neighbours. */
  lemma {:induction false} PageProofsShow(e: Exchange)
    requires Answered(e)
    ensures ShowsProofs(e.accepted.page)
  {
    var stream, page := e.request.stream, e.accepted.page;
    AcceptedProofs(e);
    PointStands(stream, page.pinned, page.proof.windowPredecessor);
    PointStands(stream, page.pinned, page.proof.windowFirst);
    PointStands(stream, page.pinned, page.proof.windowLast);
    PointStands(stream, page.pinned, page.proof.windowSuccessor);
    PointStands(stream, page.pinned, page.proof.pageSuccessor);
    forall i | 0 <= i < |page.entries|
      ensures ShowsInclusion(page.proof.entryProofs[i], page.entries[i].revision)
    {
      EntryProofStands(e.request, page, i);
    }
  }

  lemma {:induction false} AcceptedProofs(e: Exchange)
    requires Answered(e)
    ensures var request, page := e.request, e.accepted.page;
      && page.pinned.proof.Some? && ProofDecodes(page.proof) && PointsVerified(request.stream, page.pinned, page.proof)
      && WindowVerified(request, page) && EntriesVerified(request, page)
  {
  }

  // ---- Against a history ----

  lemma {:induction false} PageHonest(e: Exchange, h: History)
    requires Answered(e) && h != [] && Chronological(h) && e.accepted.page.pinned == HeadOf(e.request.stream, h)
    ensures ExactWindow(e.request, h, e.accepted.page.window)
    ensures HonestPage(e.request.stream, h, e.accepted.page)
  {
    PageSound(e.request, h, e.wire);
  }

  lemma {:induction false} RunPagesHonest(run: seq<Exchange>, h: History)
    requires Run(run) && h != [] && Chronological(h)
    requires run[0].accepted.page.pinned == HeadOf(run[0].request.stream, h)
    ensures ExactWindow(run[0].request, h, run[0].accepted.page.window)
    ensures forall n :: 0 <= n < |run| ==> HonestPage(run[0].request.stream, h, run[n].accepted.page)
  {
    RunShaped(run);
    forall n | 0 <= n < |run|
      ensures ExactWindow(run[n].request, h, run[n].accepted.page.window)
      ensures HonestPage(run[0].request.stream, h, run[n].accepted.page)
    {
      RunProgress(run, n + 1);
      assert Answered(run[n]);
      PageHonest(run[n], h);
    }
  }

  ghost predicate HonestPage(stream: Stream, h: History, page: Page) {
    forall i :: 0 <= i < |page.entries| ==> Honest(stream, h, page.entries[i])
  }

  lemma {:induction false} EntriesHonest(stream: Stream, run: seq<Exchange>, h: History, n: nat)
    requires n <= |run| && forall k :: 0 <= k < |run| ==> HonestPage(stream, h, run[k].accepted.page)
    ensures forall i :: 0 <= i < |EntriesRead(run, n)| ==> Honest(stream, h, EntriesRead(run, n)[i])
  {
    if n == 0 {
    } else {
      EntriesHonest(stream, run, h, n - 1);
      assert HonestPage(stream, h, run[n - 1].accepted.page);
    }
  }

  /**
   Read to the end against the head of a chronological history: the run returns exactly the
   events whose time lies in the requested range, each with the history's payload and digests.
   */
  lemma {:induction false} RunReadsHistory(run: seq<Exchange>, h: History)
    requires Run(run) && !run[|run| - 1].accepted.page.hasMore
    requires h != [] && Chronological(h) && run[0].accepted.page.pinned == HeadOf(run[0].request.stream, h)
    ensures var entries := EntriesRead(run, |run|);
      && (forall i :: 0 <= i < |entries| ==> Honest(run[0].request.stream, h, entries[i]))
      && (forall i, j :: 0 <= i < j < |entries| ==> entries[i].revision < entries[j].revision)
      && (forall r :: 1 <= r <= |h| ==>
           (InTime(run[0].request, h, r) <==> exists i :: 0 <= i < |entries| && entries[i].revision == r))
  {
    RunShaped(run);
    RunProgress(run, |run|);
    RunPagesHonest(run, h);
    EntriesHonest(run[0].request.stream, run, h, |run|);
    RevisionsHit(run[0].request, h, run[0].accepted.page.window, EntriesRead(run, |run|));
  }

  /** Consecutive entries that fill an exact window are the entries in time. */
  lemma {:induction false} RevisionsHit(request: Request, h: History, window: Range, entries: seq<Entry>)
    requires ExactWindow(request, h, window)
    requires if window.first.None? then entries == []
      else
        && window.last.Some? && Consecutive(entries, window.first.value)
        && |entries| == window.last.value - window.first.value + 1
    ensures forall i, j :: 0 <= i < j < |entries| ==> entries[i].revision < entries[j].revision
    ensures forall r :: 1 <= r <= |h| ==>
      (InTime(request, h, r) <==> exists i :: 0 <= i < |entries| && entries[i].revision == r)
  {
    forall r | 1 <= r <= |h|
      ensures InTime(request, h, r) <==> exists i :: 0 <= i < |entries| && entries[i].revision == r
    {
      if InTime(request, h, r) {
        assert entries[r - window.first.value].revision == r;
      }
    }
  }
}
