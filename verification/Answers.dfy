/** The page an honest store answers with, and that the verifier accepts it: the converse of page soundness. */
module Answers {
  import opened Words
  import opened Digests
  import opened Merkle
  import opened Inclusion
  import opened Streams
  import opened Query
  import opened Paging

  /** How many leading events happened before t. */
  function Before(h: History, t: I64): (n: nat)
    ensures n <= |h|
    decreases |h|
  {
    if h == [] then 0 else if h[|h| - 1].occurredAt < t then |h| else Before(h[..|h| - 1], t)
  }

  lemma {:induction false} BeforeSplits(h: History, t: I64)
    requires Chronological(h)
    ensures forall i :: 0 <= i < Before(h, t) ==> h[i].occurredAt < t
    ensures forall i :: Before(h, t) <= i < |h| ==> h[i].occurredAt >= t
    decreases |h|
  {
    if h != [] && h[|h| - 1].occurredAt >= t {
      BeforeSplits(h[..|h| - 1], t);
    } else if h != [] {
      forall i | 0 <= i < |h|
        ensures h[i].occurredAt < t
      {
        assert h[i].occurredAt <= h[|h| - 1].occurredAt;
      }
    }
  }

  lemma {:induction false} BeforeMonotonic(h: History, from: I64, until: I64)
    requires Chronological(h) && from < until
    ensures Before(h, from) <= Before(h, until)
  {
    BeforeSplits(h, from);
    BeforeSplits(h, until);
    if Before(h, until) < Before(h, from) {
      assert h[Before(h, until)].occurredAt < from;
    }
  }

  function WindowOf(h: History, from: I64, until: I64): Range {
    var lo, hi := Before(h, from), Before(h, until);
    if lo < hi then Range(Some(lo + 1), Some(hi)) else Range(None, None)
  }

  function PointOf(stream: Stream, h: History, revision: U64): ProofPoint
    requires 1 <= revision <= |h|
  {
    var e := EntryOf(stream, h, revision);
    ProofPoint(revision, e.occurredAt, e.payloadSha, e.previousRoot, e.content, e.proofRoot, e.root,
               HonestProof(stream, Leaves(stream, h), revision))
  }

  lemma {:induction false} ProofAccepted(stream: Stream, h: History, revision: U64)
    requires 1 <= revision <= |h|
    ensures var proof := HonestProof(stream, Leaves(stream, h), revision);
      && InclusionDecodes(proof)
      && Included(stream, PeaksOf(stream, Leaves(stream, h)), revision, LastContent(stream, h[..revision]), proof)
  {
    LeafAt(stream, h, revision);
    InclusionComplete(stream, Leaves(stream, h), revision, LastContent(stream, h[..revision]));
    HonestProofDecodes(stream, Leaves(stream, h), revision);
  }

  lemma {:induction false} HonestProofDecodes(stream: Stream, leaves: seq<Digest>, revision: U64)
    requires 1 <= revision <= |leaves| < TWO64
    ensures InclusionDecodes(HonestProof(stream, leaves, revision))
  {
    LayoutTiles(|leaves|);
  }

  lemma {:induction false} PointAccepted(stream: Stream, h: History, revision: U64)
    requires 1 <= revision <= |h|
    ensures PointVerified(stream, HeadOf(stream, h), PointOf(stream, h, revision))
    ensures PointDecodes(Some(PointOf(stream, h, revision)))
  {
    ProofAccepted(stream, h, revision);
    assert h[..revision][..revision - 1] == h[..revision - 1];
  }

  lemma {:induction false} EntryAccepted(stream: Stream, h: History, revision: U64)
    requires 1 <= revision <= |h|
    ensures EntryVerified(stream, HeadOf(stream, h), EntryOf(stream, h, revision),
                          HonestProof(stream, Leaves(stream, h), revision))
  {
    ProofAccepted(stream, h, revision);
    assert h[..revision][..revision - 1] == h[..revision - 1];
  }

  /** A request that was truthfully made and continued on this history. */
  ghost predicate Truthful(request: Request, h: History, live: StreamHead) {
    && ValidRequest(request) && h != [] && Chronological(h)
    && var pinned := HeadOf(request.stream, h);
       var window := WindowOf(h, request.from, request.until);
       && ValidHead(request.stream, live) && NotBefore(live, pinned)
       && (if request.pinned.Some? then request.pinned.value == pinned else live == pinned)
       && (request.minimumLive.Some? ==> NotBefore(live, request.minimumLive.value))
       && (request.expectedWindow.Some? ==> request.expectedWindow.value == window)
       && (request.afterRevision.Some? ==>
            window.first.Some? && window.first.value <= request.afterRevision.value < window.last.value)
       && (request.previousRoot.Some? ==>
            && request.afterRevision.Some?
            && request.previousRoot.value == HeadRoot(request.stream, h[..request.afterRevision.value]))
  }

  // ---- Assembling a page from verified parts ----

  /** A point that decodes and verifies at this revision. */
  ghost predicate GoodPoint(stream: Stream, pinned: StreamHead, point: Option<ProofPoint>, revision: int) {
    && point.Some? && point.value.revision == revision
    && PointDecodes(point) && pinned.proof.Some? && PointVerified(stream, pinned, point.value)
  }

  ghost predicate GoodEntry(request: Request, pinned: StreamHead, entry: Entry, proof: InclusionProof, revision: int) {
    && entry.revision == revision && Within(request, entry.occurredAt)
    && EntryDecodes(entry, pinned.revision) && InclusionDecodes(proof)
    && pinned.proof.Some? && EntryVerified(request.stream, pinned, entry, proof)
  }

  /** Verified entries from `start` on, chained by their roots. */
  ghost predicate GoodEntries(request: Request, pinned: StreamHead, entries: seq<Entry>, proofs: seq<InclusionProof>,
                              start: int)
  {
    && |proofs| == |entries|
    && (forall i :: 0 <= i < |entries| ==> GoodEntry(request, pinned, entries[i], proofs[i], start + i))
    && (forall i, j :: 0 <= i < j < |entries| && j == i + 1 ==> entries[j].previousRoot == entries[i].root)
  }

  lemma {:induction false} GoodEntriesVerified(request: Request, page: Page, start: int)
    requires page.pinned.proof.Some? && page.window.first.Some? && page.window.last.Some?
    requires GoodEntries(request, page.pinned, page.entries, page.proof.entryProofs, start)
    requires page.window.first.value <= start && start + |page.entries| - 1 <= page.window.last.value
    ensures EntriesVerified(request, page)
  {
    forall i | 0 <= i < |page.entries|
      ensures Within(request, page.entries[i].occurredAt)
      ensures page.window.first.value <= page.entries[i].revision <= page.window.last.value
      ensures EntryVerified(request.stream, page.pinned, page.entries[i], page.proof.entryProofs[i])
    {
      assert GoodEntry(request, page.pinned, page.entries[i], page.proof.entryProofs[i], start + i);
    }
    forall i {:trigger page.entries[i]} | 0 < i < |page.entries|
      ensures page.entries[i - 1].revision != U64_MAX && page.entries[i - 1].revision + 1 == page.entries[i].revision
      ensures page.entries[i].previousRoot == page.entries[i - 1].root
    {
      assert GoodEntry(request, page.pinned, page.entries[i], page.proof.entryProofs[i], start + i);
      assert GoodEntry(request, page.pinned, page.entries[i - 1], page.proof.entryProofs[i - 1], start + (i - 1));
    }
  }

  /** The bounds of a page and the cursor it starts from. */
  ghost predicate GoodBounds(request: Request, pinnedRevision: U64, first: U64, last: U64, start: U64, end: U64) {
    && 1 <= first <= start <= end <= last <= pinnedRevision
    && start == (if request.afterRevision.Some? then request.afterRevision.value + 1 else first)
    && end - start + 1 <= request.limit <= MAX_QUERY_LIMIT
    && (request.afterRevision.Some? ==> first <= request.afterRevision.value)
    && (request.expectedWindow.Some? ==> request.expectedWindow.value == Range(Some(first), Some(last)))
  }

  function MoreAt(end: U64, last: U64): Option<U64> {
    if end < last then Some(end) else None
  }

  lemma {:induction false} BoundsFromParts(request: Request, wire: WirePage, first: U64, last: U64, start: U64,
                                           end: U64)
    requires wire.pinned.Some? && GoodBounds(request, wire.pinned.value.revision, first, last, start, end)
    requires |wire.entries| == end - start + 1
    requires wire.entries[0].revision == start && wire.entries[|wire.entries| - 1].revision == end
    requires forall i :: 0 <= i < |wire.entries| ==> EntryDecodes(wire.entries[i], wire.pinned.value.revision)
    requires wire.hasMore == (end < last) && wire.next == MoreAt(end, last)
    ensures BoundsAccepted(request, wire, Range(Some(first), Some(last)), Range(Some(start), Some(end)))
  {
  }

  lemma {:induction false} CursorFromParts(request: Request, page: Page, first: U64, last: U64, start: U64, end: U64)
    requires GoodBounds(request, page.pinned.revision, first, last, start, end)
    requires page.window == Range(Some(first), Some(last)) && page.range == Range(Some(start), Some(end))
    requires |page.entries| == end - start + 1
    requires page.entries[0].revision == start && page.entries[|page.entries| - 1].revision == end
    requires page.hasMore == (end < last) && page.next == MoreAt(end, last)
    ensures CursorVerified(request, page) && MoreVerified(page)
  {
  }

  /** What the proof must hold for a non-empty page. */
  ghost predicate GoodProof(request: Request, pinned: StreamHead, proof: QueryProof, first: U64, last: U64, tail: Entry)
  {
    && pinned.proof.Some? && proof.version == PROOF_VERSION && proof.scheme == SCHEME
    && proof.root == pinned.proof.value.root
    && GoodPoint(request.stream, pinned, proof.windowFirst, first)
    && Within(request, proof.windowFirst.value.occurredAt)
    && GoodPoint(request.stream, pinned, proof.windowLast, last) && Within(request, proof.windowLast.value.occurredAt)
    && (if first == 1 then proof.windowPredecessor.None?
        else GoodPoint(request.stream, pinned, proof.windowPredecessor, first - 1)
             && proof.windowPredecessor.value.occurredAt < request.from)
    && (if last == pinned.revision then proof.windowSuccessor.None?
        else GoodPoint(request.stream, pinned, proof.windowSuccessor, last + 1)
             && proof.windowSuccessor.value.occurredAt >= request.until)
    && (if tail.revision == pinned.revision then proof.pageSuccessor.None? && tail.root == pinned.root
        else GoodPoint(request.stream, pinned, proof.pageSuccessor, tail.revision + 1)
             && proof.pageSuccessor.value.previousRoot == tail.root)
  }

  lemma {:induction false} ProofFromParts(request: Request, page: Page, first: U64, last: U64)
    requires page.window == Range(Some(first), Some(last)) && page.entries != []
    requires GoodProof(request, page.pinned, page.proof, first, last, page.entries[|page.entries| - 1])
    ensures PointsVerified(request.stream, page.pinned, page.proof)
    ensures WindowVerified(request, page) && TailVerified(page)
  {
  }

  lemma {:induction false} EntriesDecode(request: Request, pinned: StreamHead, entries: seq<Entry>,
                                         proofs: seq<InclusionProof>, start: int)
    requires GoodEntries(request, pinned, entries, proofs, start)
    ensures forall i :: 0 <= i < |entries| ==>
      entries[i].revision == start + i && EntryDecodes(entries[i], pinned.revision)
    ensures forall i :: 0 <= i < |proofs| ==> InclusionDecodes(proofs[i])
  {
    forall i | 0 <= i < |entries|
      ensures entries[i].revision == start + i && EntryDecodes(entries[i], pinned.revision)
      ensures InclusionDecodes(proofs[i])
    {
      assert GoodEntry(request, pinned, entries[i], proofs[i], start + i);
    }
  }

  lemma {:induction false} VerifiedFromParts(request: Request, page: Page, first: U64, last: U64, start: U64, end: U64)
    requires GoodBounds(request, page.pinned.revision, first, last, start, end)
    requires |page.entries| == end - start + 1
    requires page == Page(page.pinned, page.live, Range(Some(first), Some(last)), Range(Some(start), Some(end)),
                          MoreAt(end, last), end < last, page.entries, page.proof)
    requires page.entries[0].revision == start && page.entries[|page.entries| - 1].revision == end
    requires GoodEntries(request, page.pinned, page.entries, page.proof.entryProofs, start)
    requires GoodProof(request, page.pinned, page.proof, first, last, page.entries[|page.entries| - 1])
    ensures PageVerified(request, page)
  {
    CursorFromParts(request, page, first, last, start, end);
    ProofFromParts(request, page, first, last);
    GoodEntriesVerified(request, page, start);
  }

  /** The page that shows these entries of a non-empty window. */
  function FullPage(pinned: StreamHead, live: StreamHead, first: U64, last: U64, start: U64, end: U64,
                    entries: seq<Entry>, proof: QueryProof): Page
  {
    Page(pinned, live, Range(Some(first), Some(last)), Range(Some(start), Some(end)), MoreAt(end, last), end < last,
         entries, proof)
  }

  function FullWire(page: Page): WirePage {
    WirePage(Some(page.pinned), Some(page.live), page.window.first, page.window.last, page.range.first, page.range.last,
             page.next, page.hasMore, page.entries, page.proof)
  }

  /** The parts of a page, all in order. */
  ghost predicate GoodParts(request: Request, pinned: StreamHead, live: StreamHead, first: U64, last: U64, start: U64,
                            end: U64, entries: seq<Entry>, proof: QueryProof)
  {
    && HeadsAgree(request, pinned, live)
    && GoodBounds(request, pinned.revision, first, last, start, end) && end - start + 1 == |entries|
    && GoodEntries(request, pinned, entries, proof.entryProofs, start)
    && GoodProof(request, pinned, proof, first, last, entries[|entries| - 1])
    && (request.previousRoot.Some? ==> entries[0].previousRoot == Hex(request.previousRoot.value))
  }

  lemma {:induction false} BoundsOfParts(request: Request, pinned: StreamHead, live: StreamHead,
                                         first: U64, last: U64, start: U64, end: U64,
                                         entries: seq<Entry>, proof: QueryProof, page: Page)
    requires GoodParts(request, pinned, live, first, last, start, end, entries, proof)
    requires page == FullPage(pinned, live, first, last, start, end, entries, proof)
    ensures DecodeRange(page.window.first, page.window.last) == Some(page.window)
    ensures DecodeRange(page.range.first, page.range.last) == Some(page.range)
    ensures BoundsAccepted(request, FullWire(page), page.window, page.range)
  {
    EntriesDecode(request, pinned, entries, proof.entryProofs, start);
    BoundsFromParts(request, FullWire(page), first, last, start, end);
  }

  lemma {:induction false} VerifiedOfParts(request: Request, pinned: StreamHead, live: StreamHead,
                                           first: U64, last: U64, start: U64, end: U64,
                                           entries: seq<Entry>, proof: QueryProof, page: Page)
    requires GoodParts(request, pinned, live, first, last, start, end, entries, proof)
    requires page == FullPage(pinned, live, first, last, start, end, entries, proof)
    ensures PageVerified(request, page)
  {
    EntriesDecode(request, pinned, entries, proof.entryProofs, start);
    VerifiedFromParts(request, page, first, last, start, end);
  }

  lemma {:induction false} PointsDecode(request: Request, pinned: StreamHead, proof: QueryProof, first: U64, last: U64,
                                        tail: Entry)
    requires GoodProof(request, pinned, proof, first, last, tail)
    ensures PointDecodes(proof.windowPredecessor) && PointDecodes(proof.windowFirst) && PointDecodes(proof.windowLast)
    ensures PointDecodes(proof.windowSuccessor) && PointDecodes(proof.pageSuccessor)
  {
  }

  lemma {:induction false} ProofOfParts(request: Request, pinned: StreamHead, first: U64, last: U64, start: int,
                                        entries: seq<Entry>, proof: QueryProof)
    requires GoodEntries(request, pinned, entries, proof.entryProofs, start) && 0 < |entries| <= MAX_QUERY_LIMIT
    requires GoodProof(request, pinned, proof, first, last, entries[|entries| - 1])
    ensures ProofDecodes(proof)
  {
    EntriesDecode(request, pinned, entries, proof.entryProofs, start);
    PointsDecode(request, pinned, proof, first, last, entries[|entries| - 1]);
  }

  lemma {:induction false} PageFromParts(request: Request, pinned: StreamHead, live: StreamHead,
                                         first: U64, last: U64, start: U64, end: U64,
                                         entries: seq<Entry>, proof: QueryProof, page: Page)
    requires GoodParts(request, pinned, live, first, last, start, end, entries, proof)
    requires page == FullPage(pinned, live, first, last, start, end, entries, proof)
    ensures DecodePage(request, FullWire(page)).Some? && DecodePage(request, FullWire(page)).value.page == page
  {
    BoundsOfParts(request, pinned, live, first, last, start, end, entries, proof, page);
    VerifiedOfParts(request, pinned, live, first, last, start, end, entries, proof, page);
    ProofOfParts(request, pinned, first, last, start, entries, proof);
    DecodeFromParts(request, FullWire(page), page);
  }

  lemma {:induction false} DecodeFromParts(request: Request, wire: WirePage, page: Page)
    requires HeadsAccepted(request, wire)
    requires DecodeRange(wire.windowFirst, wire.windowLast) == Some(page.window)
    requires DecodeRange(wire.pageFirst, wire.pageLast) == Some(page.range)
    requires BoundsAccepted(request, wire, page.window, page.range) && ProofDecodes(wire.proof)
    requires page == Page(wire.pinned.value, wire.live.value, page.window, page.range, wire.next, wire.hasMore,
                          wire.entries, wire.proof)
    requires PageVerified(request, page)
    requires request.previousRoot.Some? && wire.entries != [] ==>
      wire.entries[0].previousRoot == Hex(request.previousRoot.value)
    ensures DecodePage(request, wire).Some? && DecodePage(request, wire).value.page == page
  {
    MoreIsShown(wire, page);
    AcceptFromParts(request, page);
    DecodeIsAccept(request, wire, page);
  }

  /** A page that passes the first checks is left to the last ones. */
  lemma {:induction false} DecodeIsAccept(request: Request, wire: WirePage, page: Page)
    requires HeadsAccepted(request, wire)
    requires DecodeRange(wire.windowFirst, wire.windowLast) == Some(page.window)
    requires DecodeRange(wire.pageFirst, wire.pageLast) == Some(page.range)
    requires BoundsAccepted(request, wire, page.window, page.range) && ProofDecodes(wire.proof)
    requires page == Page(wire.pinned.value, wire.live.value, page.window, page.range, wire.next, wire.hasMore,
                          wire.entries, wire.proof)
    requires page.hasMore ==> page.entries != [] && page.entries[|page.entries| - 1].root.Hex? && page.next.Some?
    ensures DecodePage(request, wire) == AcceptPage(request, page)
  {
  }

  /** A page with more to come shows its last entry and the cursor. */
  lemma {:induction false} MoreIsShown(wire: WirePage, page: Page)
    requires wire.hasMore ==> wire.next.Some? && wire.entries != []
    requires forall i :: 0 <= i < |wire.entries| ==> wire.entries[i].root.Hex?
    requires page.hasMore == wire.hasMore && page.next == wire.next && page.entries == wire.entries
    ensures page.hasMore ==> page.entries != [] && page.entries[|page.entries| - 1].root.Hex? && page.next.Some?
  {
  }

  lemma {:induction false} AcceptFromParts(request: Request, page: Page)
    requires page.hasMore ==> page.entries != [] && page.entries[|page.entries| - 1].root.Hex? && page.next.Some?
    requires PageVerified(request, page)
    requires request.previousRoot.Some? && page.entries != [] ==>
      page.entries[0].previousRoot == Hex(request.previousRoot.value)
    ensures AcceptPage(request, page).Some? && AcceptPage(request, page).value.page == page
  {
  }

  lemma {:induction false} EmptyParts(request: Request, wire: WirePage, pinned: StreamHead, gap: nat)
    requires HeadsAccepted(request, wire) && wire.pinned == Some(pinned) && pinned.proof.Some?
    requires wire == WirePage(wire.pinned, wire.live, None, None, None, None, None, false, [], wire.proof)
    requires request.afterRevision.None?
    requires (request.expectedWindow.Some? ==> request.expectedWindow.value == Range(None, None))
    requires wire.proof
          == QueryProof(PROOF_VERSION, SCHEME, pinned.proof.value.root, wire.proof.windowPredecessor, None, None,
                                      wire.proof.windowSuccessor, None, [])
    requires gap <= pinned.revision && 0 < pinned.revision
    requires if gap == 0 then wire.proof.windowPredecessor.None?
      else
        && GoodPoint(request.stream, pinned, wire.proof.windowPredecessor, gap)
        && wire.proof.windowPredecessor.value.occurredAt < request.from
    requires if gap == pinned.revision then wire.proof.windowSuccessor.None?
      else
        && GoodPoint(request.stream, pinned, wire.proof.windowSuccessor, gap + 1)
        && wire.proof.windowSuccessor.value.occurredAt >= request.until
    ensures DecodePage(request, wire).Some?
    ensures DecodePage(request, wire).value.page.entries == [] && DecodePage(request, wire).value.page.pinned == pinned
  {
    var page := Page(pinned, wire.live.value, Range(None, None), Range(None, None), None, false, [], wire.proof);
    DecodeFromParts(request, wire, page);
  }

  // ---- The honest page ----

  lemma {:induction false} TakePoint(stream: Stream, h: History, pinned: StreamHead, revision: U64)
    returns (point: Option<ProofPoint>)
    requires 1 <= revision <= |h| && pinned == HeadOf(stream, h)
    ensures GoodPoint(stream, pinned, point, revision)
    ensures point.value.occurredAt == h[revision - 1].occurredAt
    ensures point.value.previousRoot == Hex(HeadRoot(stream, h[..revision - 1]))
  {
    point := Some(PointOf(stream, h, revision));
    PointAccepted(stream, h, revision);
  }

  /** The history's entries from `start` on. */
  ghost predicate AreEntries(stream: Stream, h: History, start: int, entries: seq<Entry>) {
    && 1 <= start && start + |entries| - 1 <= |h|
    && forall i :: 0 <= i < |entries| ==> entries[i] == EntryOf(stream, h, start + i)
  }

  /** The revisions start..end with their proofs. */
  lemma {:induction false} TakeEntries(request: Request, h: History, pinned: StreamHead, start: nat, end: nat)
    returns (entries: seq<Entry>, proofs: seq<InclusionProof>)
    requires 1 <= start <= end <= |h| && pinned == HeadOf(request.stream, h)
    requires forall r :: start <= r <= end ==> InTime(request, h, r)
    ensures |entries| == end - start + 1 && GoodEntries(request, pinned, entries, proofs, start)
    ensures AreEntries(request.stream, h, start, entries)
  {
    entries, proofs := [], [];
    for k := start to end + 1
      invariant |entries| == k - start
      invariant AreEntries(request.stream, h, start, entries)
      invariant GoodEntries(request, pinned, entries, proofs, start)
    {
      assert InTime(request, h, k);
      entries, proofs := TakeOneMore(request, h, pinned, start, entries, proofs);
    }
  }

  lemma {:induction false} TakeOneMore(request: Request, h: History, pinned: StreamHead, start: nat,
                                       entries: seq<Entry>, proofs: seq<InclusionProof>)
    returns (more: seq<Entry>, moreProofs: seq<InclusionProof>)
    requires 1 <= start && start + |entries| <= |h| && pinned == HeadOf(request.stream, h)
    requires InTime(request, h, start + |entries|)
    requires AreEntries(request.stream, h, start, entries) && GoodEntries(request, pinned, entries, proofs, start)
    ensures |more| == |entries| + 1
    ensures AreEntries(request.stream, h, start, more) && GoodEntries(request, pinned, more, moreProofs, start)
  {
    var entry, proof := TakeEntry(request, h, pinned, start + |entries|);
    EntryLinks(request.stream, h, start, entries, entry);
    GoodEntriesPush(request, pinned, entries, proofs, start, entry, proof);
    more, moreProofs := entries + [entry], proofs + [proof];
  }

  lemma {:induction false} EntryLinks(stream: Stream, h: History, start: nat, entries: seq<Entry>, entry: Entry)
    requires AreEntries(stream, h, start, entries) && start + |entries| <= |h|
    requires entry == EntryOf(stream, h, start + |entries|)
    ensures AreEntries(stream, h, start, entries + [entry])
    ensures entries != [] ==> entry.previousRoot == entries[|entries| - 1].root
  {
    if entries != [] {
      assert entries[|entries| - 1] == EntryOf(stream, h, start + (|entries| - 1));
    }
  }

  lemma {:induction false} TakeEntry(request: Request, h: History, pinned: StreamHead, revision: U64)
    returns (entry: Entry, proof: InclusionProof)
    requires 1 <= revision <= |h| && pinned == HeadOf(request.stream, h) && InTime(request, h, revision)
    ensures entry == EntryOf(request.stream, h, revision) && GoodEntry(request, pinned, entry, proof, revision)
    ensures entry.previousRoot == Hex(HeadRoot(request.stream, h[..revision - 1]))
    ensures entry.root == Hex(HeadRoot(request.stream, h[..revision]))
  {
    entry, proof := EntryOf(request.stream, h, revision), HonestProof(request.stream, Leaves(request.stream, h),
                            revision);
    assert EntryDecodes(entry, |h|);
    EntryAccepted(request.stream, h, revision);
    HonestProofDecodes(request.stream, Leaves(request.stream, h), revision);
  }

  lemma {:induction false} GoodEntriesPush(request: Request, pinned: StreamHead, entries: seq<Entry>,
                                           proofs: seq<InclusionProof>, start: int, entry: Entry, proof: InclusionProof)
    requires GoodEntries(request, pinned, entries, proofs, start)
    requires GoodEntry(request, pinned, entry, proof, start + |entries|)
    requires entries != [] ==> entry.previousRoot == entries[|entries| - 1].root
    ensures GoodEntries(request, pinned, entries + [entry], proofs + [proof], start)
  {
    var more, moreProofs := entries + [entry], proofs + [proof];
    forall i | 0 <= i < |more|
      ensures GoodEntry(request, pinned, more[i], moreProofs[i], start + i)
    {
      if i < |entries| {
        assert GoodEntry(request, pinned, entries[i], proofs[i], start + i);
      }
    }
  }

  lemma {:induction false} WindowPoints(request: Request, h: History, first: U64, last: U64)
    requires h != [] && Chronological(h) && 1 <= first <= last <= |h|
    requires WindowOf(h, request.from, request.until) == Range(Some(first), Some(last))
    ensures Within(request, h[first - 1].occurredAt) && Within(request, h[last - 1].occurredAt)
    ensures first > 1 ==> h[first - 2].occurredAt < request.from
    ensures last < |h| ==> h[last].occurredAt >= request.until
    ensures forall r :: first <= r <= last ==> InTime(request, h, r)
  {
    BeforeSplits(h, request.from);
    BeforeSplits(h, request.until);
  }

  lemma {:induction false} TakeSuccessor(stream: Stream, h: History, pinned: StreamHead, tail: Entry)
    returns (point: Option<ProofPoint>)
    requires h != [] && pinned == HeadOf(stream, h)
    requires 1 <= tail.revision <= |h| && tail.root == Hex(HeadRoot(stream, h[..tail.revision]))
    ensures if tail.revision == pinned.revision then point.None? && tail.root == pinned.root
      else GoodPoint(stream, pinned, point, tail.revision + 1) && point.value.previousRoot == tail.root
  {
    if tail.revision < |h| {
      point := TakePoint(stream, h, pinned, tail.revision + 1);
    } else {
      point := None;
      assert h[..tail.revision] == h;
    }
  }

  /** The proof of a non-empty page: its window's ends, their neighbours, and the page's successor. */
  lemma {:induction false} TakeProof(request: Request, h: History, pinned: StreamHead, first: U64, last: U64,
                                     tail: Entry, proofs: seq<InclusionProof>)
    returns (proof: QueryProof)
    requires h != [] && Chronological(h) && pinned == HeadOf(request.stream, h) && 1 <= first <= last <= |h|
    requires WindowOf(h, request.from, request.until) == Range(Some(first), Some(last))
    requires 1 <= tail.revision <= |h| && tail.root == Hex(HeadRoot(request.stream, h[..tail.revision]))
    ensures GoodProof(request, pinned, proof, first, last, tail) && proof.entryProofs == proofs
  {
    WindowPoints(request, h, first, last);
    var firstPoint := TakePoint(request.stream, h, pinned, first);
    var lastPoint := TakePoint(request.stream, h, pinned, last);
    var predecessor, successor, pageSuccessor: Option<ProofPoint> := None, None, None;
    if first > 1 { predecessor := TakePoint(request.stream, h, pinned, first - 1); }
    if last < |h| { successor := TakePoint(request.stream, h, pinned, last + 1); }
    pageSuccessor := TakeSuccessor(request.stream, h, pinned, tail);
    proof := QueryProof(PROOF_VERSION, SCHEME, pinned.proof.value.root, predecessor, firstPoint, lastPoint, successor,
                        pageSuccessor, proofs);
  }

  lemma {:induction false} HonestHeads(request: Request, h: History, live: StreamHead)
    requires Truthful(request, h, live)
    ensures HeadsAgree(request, HeadOf(request.stream, h), live)
  {
    HeadOfValid(request.stream, h);
  }

  /** The cursor of a truthful request fits the window. */
  lemma {:induction false} TruthfulBounds(request: Request, h: History, live: StreamHead, first: U64, last: U64,
                                          start: U64, end: U64)
    requires Truthful(request, h, live)
    requires WindowOf(h, request.from, request.until) == Range(Some(first), Some(last))
    requires 1 <= first <= start <= end <= last <= |h| && start == Start(request, Range(Some(first), Some(last)))
    requires end - start + 1 <= request.limit
    ensures GoodBounds(request, |h|, first, last, start, end)
    ensures request.previousRoot.Some? ==> request.previousRoot.value == HeadRoot(request.stream, h[..start - 1])
  {
  }

  lemma {:induction false} TakeParts(request: Request, h: History, live: StreamHead,
                                     first: U64, last: U64, start: U64, end: U64)
    returns (entries: seq<Entry>, proof: QueryProof)
    requires Truthful(request, h, live)
    requires WindowOf(h, request.from, request.until) == Range(Some(first), Some(last))
    requires 1 <= first <= start <= end <= last <= |h| && start == Start(request, Range(Some(first), Some(last)))
    requires end - start + 1 <= request.limit
    ensures GoodParts(request, HeadOf(request.stream, h), live, first, last, start, end, entries, proof)
    ensures |entries| == end - start + 1 && AreEntries(request.stream, h, start, entries)
  {
    var pinned := HeadOf(request.stream, h);
    HonestHeads(request, h, live);
    TruthfulBounds(request, h, live, first, last, start, end);
    WindowPoints(request, h, first, last);
    var proofs;
    entries, proofs := TakeEntries(request, h, pinned, start, end);
    EndEntries(request.stream, h, start, entries);
    proof := TakeProof(request, h, pinned, first, last, entries[|entries| - 1], proofs);
  }

  lemma {:induction false} FullAnswer(request: Request, h: History, live: StreamHead,
                                      first: U64, last: U64, start: U64, end: U64)
    returns (wire: WirePage, entries: seq<Entry>)
    requires Truthful(request, h, live)
    requires WindowOf(h, request.from, request.until) == Range(Some(first), Some(last))
    requires 1 <= first <= start <= end <= last <= |h| && start == Start(request, Range(Some(first), Some(last)))
    requires end - start + 1 <= request.limit
    ensures DecodePage(request, wire).Some? && DecodePage(request, wire).value.page.entries == entries
    ensures DecodePage(request, wire).value.page.pinned == HeadOf(request.stream, h)
    ensures |entries| == end - start + 1 && AreEntries(request.stream, h, start, entries)
  {
    var pinned := HeadOf(request.stream, h);
    var proof;
    entries, proof := TakeParts(request, h, live, first, last, start, end);
    var page := FullPage(pinned, live, first, last, start, end, entries, proof);
    PageFromParts(request, pinned, live, first, last, start, end, entries, proof, page);
    wire := FullWire(page);
  }

  lemma {:induction false} EndEntries(stream: Stream, h: History, start: nat, entries: seq<Entry>)
    requires AreEntries(stream, h, start, entries) && entries != []
    ensures entries[0].previousRoot == Hex(HeadRoot(stream, h[..start - 1]))
    ensures var tail := entries[|entries| - 1];
      tail.revision == start + |entries| - 1 && tail.root == Hex(HeadRoot(stream, h[..tail.revision]))
  {
    assert entries[0] == EntryOf(stream, h, start + 0);
    assert entries[|entries| - 1] == EntryOf(stream, h, start + (|entries| - 1));
  }

  lemma {:induction false} EmptyAnswer(request: Request, h: History, live: StreamHead) returns (wire: WirePage)
    requires Truthful(request, h, live) && WindowOf(h, request.from, request.until).first.None?
    ensures DecodePage(request, wire).Some? && DecodePage(request, wire).value.page.entries == []
    ensures DecodePage(request, wire).value.page.pinned == HeadOf(request.stream, h)
  {
    var pinned := HeadOf(request.stream, h);
    var gap := Before(h, request.from);
    BeforeSplits(h, request.from);
    BeforeSplits(h, request.until);
    BeforeMonotonic(h, request.from, request.until);
    var predecessor, successor := None, None;
    if gap > 0 { predecessor := TakePoint(request.stream, h, pinned, gap); }
    if gap < |h| { successor := TakePoint(request.stream, h, pinned, gap + 1); }
    wire := WirePage(Some(pinned), Some(live), None, None, None, None, None, false, [],
      QueryProof(PROOF_VERSION, SCHEME, pinned.proof.value.root, predecessor, None, None, successor, None, []));
    HonestHeads(request, h, live);
    assert HeadsAccepted(request, wire);
    EmptyParts(request, wire, pinned, gap);
  }

  /** A page that shows the history's head and the next events of the window, as many as the limit allows. */
  ghost predicate NextEvents(request: Request, h: History, page: Page)
    requires h != []
  {
    var window := WindowOf(h, request.from, request.until);
    && page.pinned == HeadOf(request.stream, h)
    && if window.first.None? then page.entries == []
       else
         var start := Start(request, window);
         var rest := window.last.value - start + 1;
         && |page.entries| == (if request.limit <= rest then request.limit else rest)
         && AreEntries(request.stream, h, start, page.entries)
  }

  /**
   Completeness. For every truthful request there is a page that is accepted; it shows the history's
   head and returns the next `limit` events of the window, or all that are left.
   */
  lemma {:induction false} AnswerExists(request: Request, h: History, live: StreamHead) returns (wire: WirePage)
    requires Truthful(request, h, live)
    ensures DecodePage(request, wire).Some? && NextEvents(request, h, DecodePage(request, wire).value.page)
  {
    var window := WindowOf(h, request.from, request.until);
    if window.first.None? {
      wire := EmptyAnswer(request, h, live);
    } else {
      var start := Start(request, window);
      var full := start + request.limit - 1;
      var end := if full <= window.last.value then full else window.last.value;
      var entries;
      wire, entries := FullAnswer(request, h, live, window.first.value, window.last.value, start, end);
    }
  }

  // ---- An accepted page can always be continued ----

  lemma {:induction false} InTimeIff(request: Request, h: History, r: int)
    requires Chronological(h) && 1 <= r <= |h|
    ensures InTime(request, h, r) <==> Before(h, request.from) < r <= Before(h, request.until)
  {
    BeforeSplits(h, request.from);
    BeforeSplits(h, request.until);
  }

  /** There is only one exact window. */
  lemma {:induction false} WindowUnique(request: Request, h: History, window: Range)
    requires Chronological(h) && ExactWindow(request, h, window) && window.first.Some? == window.last.Some?
    requires window.first.Some? ==> 1 <= window.first.value <= window.last.value <= |h|
    ensures window == WindowOf(h, request.from, request.until)
  {
    var lo, hi := Before(h, request.from), Before(h, request.until);
    if window.first.Some? {
      var first, last := window.first.value, window.last.value;
      InTimeIff(request, h, first);
      InTimeIff(request, h, last);
      assert InTime(request, h, first) && InTime(request, h, last);
      InTimeIff(request, h, lo + 1);
      InTimeIff(request, h, hi);
      assert InTime(request, h, lo + 1) && InTime(request, h, hi);
    } else if lo < hi {
      InTimeIff(request, h, hi);
    }
  }

  lemma {:induction false} AcceptedWindow(e: Exchange)
    requires Answered(e) && e.accepted.page.window.first.Some?
    ensures var page := e.accepted.page;
      page.window.last.Some? && 1 <= page.window.first.value <= page.window.last.value <= page.pinned.revision
  {
    AcceptedParts(e);
  }

  /** A continuation names the last entry of its page. */
  lemma {:induction false} ContinuationOfPage(e: Exchange, h: History)
    requires Shape(e) && e.accepted.continuation.Some? && HonestPage(e.request.stream, h, e.accepted.page)
    ensures var c, page := e.accepted.continuation.value, e.accepted.page;
      && c.stream == e.request.stream && c.from == e.request.from && c.until == e.request.until
      && c.pinned == page.pinned && c.window == page.window && c.minimumLive == page.live
      && c.window.first.Some? && c.window.last.Some?
      && c.window.first.value <= c.afterRevision < c.window.last.value && c.afterRevision <= |h|
      && c.previousRoot == HeadRoot(c.stream, h[..c.afterRevision])
  {
    var page := e.accepted.page;
    assert Honest(e.request.stream, h, page.entries[|page.entries| - 1]);
  }

  /** Whoever sent the page, its continuation is a truthful request, so an honest store can answer it. */
  lemma {:induction false} ContinuationTruthful(e: Exchange, next: Exchange, h: History, live: StreamHead)
    requires Answered(e) && Continues(e, next)
    requires h != [] && Chronological(h) && e.accepted.page.pinned == HeadOf(e.request.stream, h)
    requires ValidHead(e.request.stream, live) && NotBefore(live, e.accepted.page.pinned)
    requires NotBefore(live, e.accepted.page.live)
    ensures Truthful(next.request, h, live)
  {
    PageShape(e);
    PageHonest(e, h);
    ContinuationOfPage(e, h);
    AcceptedWindow(e);
    WindowUnique(e.request, h, e.accepted.page.window);
    ContinuationFits(e.accepted.continuation.value, next.request, h, live);
  }

  lemma {:induction false} ContinuationFits(c: Continuation, request: Request, h: History, live: StreamHead)
    requires NextRequest(c, request.limit) == Some(request) && h != [] && Chronological(h)
    requires c.pinned == HeadOf(c.stream, h)
    requires ValidHead(c.stream, live) && NotBefore(live, c.pinned) && NotBefore(live, c.minimumLive)
    requires c.window == WindowOf(h, c.from, c.until) && c.window.first.Some? && c.window.last.Some?
    requires c.window.first.value <= c.afterRevision < c.window.last.value && c.afterRevision <= |h|
    requires c.previousRoot == HeadRoot(c.stream, h[..c.afterRevision])
    ensures Truthful(request, h, live)
  {
  }

  // ---- Every run can be read to its end ----

  /** A run whose pages show the head of this history. */
  ghost predicate RunOn(run: seq<Exchange>, h: History) {
    Run(run) && h != [] && Chronological(h) && run[0].accepted.page.pinned == HeadOf(run[0].request.stream, h)
  }

  /** What holds of every item and of every two neighbours holds after one more. */
  lemma {:induction false} OneMore<T>(xs: seq<T>, x: T, p: T -> bool, r: (T, T) -> bool)
    requires xs != [] && p(x) && r(xs[|xs| - 1], x)
    requires forall i :: 0 <= i < |xs| ==> p(xs[i])
    requires forall i, j :: 0 <= i < j < |xs| && j == i + 1 ==> r(xs[i], xs[j])
    ensures forall i :: 0 <= i < |xs| + 1 ==> p((xs + [x])[i])
    ensures forall i, j :: 0 <= i < j < |xs| + 1 && j == i + 1 ==> r((xs + [x])[i], (xs + [x])[j])
  {
  }

  lemma {:induction false} RunExtended(run: seq<Exchange>, next: Exchange)
    requires Run(run) && Answered(next) && Continues(run[|run| - 1], next)
    ensures Run(run + [next])
  {
    OneMore(run, next, Answered, Continues);
  }

  lemma {:induction false} EntriesReadPrefix(run: seq<Exchange>, next: Exchange, n: nat)
    requires n <= |run|
    ensures EntriesRead(run + [next], n) == EntriesRead(run, n)
  {
    if n == 0 {
    } else {
      EntriesReadPrefix(run, next, n - 1);
    }
  }

  /** Events of the window that a run has not read yet. */
  ghost function Unread(run: seq<Exchange>): int
    requires run != []
  {
    var window := run[0].accepted.page.window;
    if window.first.None? || window.last.None? then 0
    else window.last.value - window.first.value + 1 - |EntriesRead(run, |run|)|
  }

  /** Events of the window behind a continuation. */
  function Rest(c: Continuation): int
    requires c.window.last.Some?
  {
    c.window.last.value - c.afterRevision
  }

  lemma {:induction false} PageLive(e: Exchange)
    requires Answered(e)
    ensures ValidHead(e.request.stream, e.accepted.page.live) && NotBefore(e.accepted.page.live, e.accepted.page.pinned)
  {
  }

  /** The next request for a page that offers more. */
  lemma {:induction false} NextIsTruthful(e: Exchange, h: History, limit: U64) returns (request: Request)
    requires ValidRequest(e.request) && Answered(e) && e.accepted.continuation.Some? && 0 < limit <= MAX_QUERY_LIMIT
    requires h != [] && Chronological(h) && e.accepted.page.pinned == HeadOf(e.request.stream, h)
    ensures NextRequest(e.accepted.continuation.value, limit) == Some(request) && request.limit == limit
    ensures Truthful(request, h, e.accepted.page.live)
  {
    NextRequestSucceeds(e.request, e.wire, limit);
    request := NextRequest(e.accepted.continuation.value, limit).value;
    PageLive(e);
    ContinuationTruthful(e, Exchange(request, e.wire, e.accepted), h, e.accepted.page.live);
  }

  lemma {:induction false} TruthfulWindow(request: Request, h: History, live: StreamHead)
    requires Truthful(request, h, live) && request.afterRevision.Some? && request.expectedWindow.Some?
    ensures var window := WindowOf(h, request.from, request.until);
      && window == request.expectedWindow.value && window.first.Some? && window.last.Some?
      && Start(request, window) == request.afterRevision.value + 1
  {
  }

  lemma {:induction false} Reply(request: Request, h: History, live: StreamHead) returns (e: Exchange)
    requires Truthful(request, h, live)
    ensures Answered(e) && e.request == request && NextEvents(request, h, e.accepted.page)
  {
    var wire := AnswerExists(request, h, live);
    e := Exchange(request, wire, DecodePage(request, wire).value);
  }

  lemma {:induction false} CountOf(request: Request, h: History, live: StreamHead, page: Page)
    requires Truthful(request, h, live) && request.afterRevision.Some? && request.expectedWindow.Some?
    requires NextEvents(request, h, page)
    ensures request.expectedWindow.value.last.Some?
    ensures var rest := request.expectedWindow.value.last.value - request.afterRevision.value;
      |page.entries| == if request.limit <= rest then request.limit else rest
  {
    TruthfulWindow(request, h, live);
  }

  /** A page that offers more can be followed by another one, which is full or the last. */
  lemma {:induction false} NextPage(e: Exchange, h: History, limit: U64) returns (next: Exchange)
    requires ValidRequest(e.request) && Answered(e) && e.accepted.continuation.Some? && 0 < limit <= MAX_QUERY_LIMIT
    requires h != [] && Chronological(h) && e.accepted.page.pinned == HeadOf(e.request.stream, h)
    ensures Answered(next) && Continues(e, next) && next.request.limit == limit
    ensures e.accepted.continuation.value.window.last.Some?
    ensures var rest := Rest(e.accepted.continuation.value);
      |next.accepted.page.entries| == if limit <= rest then limit else rest
  {
    var request := NextIsTruthful(e, h, limit);
    next := Reply(request, h, e.accepted.page.live);
    CountOf(request, h, e.accepted.page.live, next.accepted.page);
  }

  lemma {:induction false} RequestsValid(run: seq<Exchange>)
    requires Run(run)
    ensures ValidRequest(run[|run| - 1].request) && Answered(run[|run| - 1])
  {
    if |run| > 1 {
      assert Continues(run[|run| - 2], run[|run| - 1]);
    }
    assert Answered(run[|run| - 1]);
  }

  /** The last page of a run shows the run's head, and offers exactly what is unread. */
  lemma {:induction false} LastPage(run: seq<Exchange>, h: History)
    requires RunOn(run, h)
    ensures var last := run[|run| - 1];
      && last.accepted.page.pinned == HeadOf(last.request.stream, h) && Unread(run) >= 0
      && (last.accepted.page.hasMore <==> last.accepted.continuation.Some?)
      && (last.accepted.page.hasMore <==> Unread(run) > 0)
      && (last.accepted.continuation.Some? ==>
            var c := last.accepted.continuation.value; c.window.last.Some? && Rest(c) == Unread(run))
  {
    RunShaped(run);
    RunProgress(run, |run|);
    assert Shape(run[|run| - 1]);
  }

  lemma {:induction false} UnreadAfter(run: seq<Exchange>, next: Exchange)
    requires run != []
    requires run[0].accepted.page.window.first.Some? && run[0].accepted.page.window.last.Some?
    ensures Unread(run + [next]) == Unread(run) - |next.accepted.page.entries|
  {
    EntriesReadPrefix(run, next, |run|);
  }

  /** A run that is not at its end has a next page; it is as full as the limit and the window allow. */
  lemma {:induction false} RunGoesOn(run: seq<Exchange>, h: History, limit: U64) returns (next: Exchange)
    requires RunOn(run, h) && run[|run| - 1].accepted.page.hasMore && 0 < limit <= MAX_QUERY_LIMIT
    ensures RunOn(run + [next], h) && next.request.limit == limit
    ensures Unread(run + [next]) == if limit <= Unread(run) then Unread(run) - limit else 0
  {
    RequestsValid(run);
    LastPage(run, h);
    next := NextPage(run[|run| - 1], h, limit);
    RunExtended(run, next);
    UnreadAfter(run, next);
  }

  /** The pages that so many events need. */
  function PagesFor(events: int, limit: nat): nat
    requires limit > 0
    decreases events
  {
    if events <= 0 then 0 else 1 + PagesFor(events - limit, limit)
  }

  /** That is the number of events divided by the limit, rounded up. */
  lemma {:induction false} PagesForIsCeiling(events: nat, limit: nat)
    requires limit > 0
    ensures events <= PagesFor(events, limit) * limit < events + limit
    decreases events
  {
    if events > limit {
      PagesForIsCeiling(events - limit, limit);
      var pages := PagesFor(events - limit, limit);
      assert (1 + pages) * limit == limit + pages * limit;
    } else if events > 0 {
      assert PagesFor(events - limit, limit) == 0;
    }
  }

  /**
   Paging never gets stuck. Whoever sent the pages so far, a run on the head of a chronological
   history can be read to its end with any page limit, in as many pages as the limit needs.
   */
  lemma {:induction false} RunCanFinish(run: seq<Exchange>, h: History, limit: U64) returns (full: seq<Exchange>)
    requires RunOn(run, h) && 0 < limit <= MAX_QUERY_LIMIT
    ensures run <= full && RunOn(full, h) && !full[|full| - 1].accepted.page.hasMore
    ensures forall i :: |run| <= i < |full| ==> full[i].request.limit == limit
    ensures |full| == |run| + PagesFor(Unread(run), limit)
    decreases Unread(run)
  {
    LastPage(run, h);
    if !run[|run| - 1].accepted.page.hasMore {
      full := run;
    } else {
      var next := RunGoesOn(run, h, limit);
      LastPage(run + [next], h);
      full := RunCanFinish(run + [next], h, limit);
    }
  }

  lemma {:induction false} RunOfOne(e: Exchange)
    requires FirstRequest(e.request) && Answered(e)
    ensures Run([e])
  {
    assert [e][0] == e;
  }

  lemma {:induction false} FirstPage(request: Request, h: History, live: StreamHead) returns (first: Exchange)
    requires FirstRequest(request) && Truthful(request, h, live)
    ensures first.request == request && RunOn([first], h)
  {
    first := Reply(request, h, live);
    RunOfOne(first);
  }

  /** A first request that an honest store can answer begins a run that reads exactly the events in range. */
  lemma {:induction false} WholeReadExists(request: Request, h: History, live: StreamHead) returns (full: seq<Exchange>)
    requires FirstRequest(request) && Truthful(request, h, live)
    ensures Run(full) && full[0].request == request && !full[|full| - 1].accepted.page.hasMore
    ensures var entries := EntriesRead(full, |full|);
      && (forall i :: 0 <= i < |entries| ==> Honest(request.stream, h, entries[i]))
      && (forall r :: 1 <= r <= |h| ==>
           (InTime(request, h, r) <==> exists i :: 0 <= i < |entries| && entries[i].revision == r))
  {
    var first := FirstPage(request, h, live);
    full := RunCanFinish([first], h, request.limit);
    assert full[0] == first;
    RunReadsHistory(full, h);
  }
}
